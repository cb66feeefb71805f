/** The hashed device bus of the older tree: bucket lists kept sorted and disjoint, looked up like a scan
    over all ranges (`obsolete/dotnet/sysbus/{DeviceBus,BusRange}.cs`). */
module DeviceBus {
  import opened Words
  import opened Results

  datatype Device = Device(name: string, size: U64)

  /** `BusRange` */
  datatype Range = Range(device: Device, start: U64, size: U64, offset: U64)

  datatype Registration = Registration(device: Device, address: U64)

  datatype BusError =
    | AlreadyMapped
    | ZeroSize
    | DuplicateName
    | SpansBuckets
    | Overlaps
    | TargetUnmapped
    | NotEncapsulated

  type Buckets = map<nat, seq<Range>>

  type Positive = n: nat | n > 0 witness 1

  datatype Bus = Bus(bucket: Positive, ranges: Buckets, registrations: map<string, Registration>, list: seq<Registration>)

  /** Sums of addresses wrap at 64 bits. */
  function WrapAdd(a: U64, b: U64): U64 {
    if a + b >= WORD then a + b - WORD else a + b
  }

  /** `BusEnd`: the first address after the range. */
  function BusEnd(r: Range): U64 {
    WrapAdd(r.start, r.size)
  }

  /** `GetHash`: the addresses are cut into buckets of one size. */
  function Hash(bucket: Positive, address: nat): nat {
    Quotient(address, bucket)
  }

  predicate Contains(r: Range, address: U64) {
    r.start <= address < BusEnd(r)
  }

  /** `Resolves`: the end of the range is included. */
  function Resolves(r: Range, address: U64): Option<U64> {
    if r.start <= address <= BusEnd(r) then Some(WrapAdd(r.offset, address - r.start)) else None
  }

  // ---- Lookup ----

  function FirstEndingAfter(ranges: seq<Range>, address: U64): Option<Range> {
    if ranges == [] then None
    else if BusEnd(ranges[0]) <= address then FirstEndingAfter(ranges[1..], address)
    else Some(ranges[0])
  }

  /** `ResolvesToRange` */
  function Lookup(bus: Bus, address: U64): Option<Range> {
    var hash := Hash(bus.bucket, address);
    if hash !in bus.ranges then None
    else
      var r := FirstEndingAfter(bus.ranges[hash], address);
      if r.Some? && r.value.start <= address then r else None
  }

  // ---- Insertion ----

  /** The ranges in front of the new one. */
  function Position(ranges: seq<Range>, start: U64): (n: nat)
    ensures n <= |ranges|
  {
    if ranges == [] || ranges[0].start >= start then 0 else 1 + Position(ranges[1..], start)
  }

  function InsertSorted(ranges: seq<Range>, r: Range): Result<seq<Range>, BusError> {
    var n := Position(ranges, r.start);
    if n < |ranges| && ranges[n].start < BusEnd(r) then Err(Overlaps)
    else Ok(ranges[..n] + [r] + ranges[n..])
  }

  /** `InsertRange` */
  function Insert(bus: Bus, r: Range): Result<Buckets, BusError> {
    var hash := Hash(bus.bucket, r.start);
    if hash != Hash(bus.bucket, BusEnd(r)) then Err(SpansBuckets)
    else if hash !in bus.ranges then Ok(bus.ranges[hash := [r]])
    else
      var ranges :- InsertSorted(bus.ranges[hash], r);
      Ok(bus.ranges[hash := ranges])
  }

  /** An operation leaves a bus, also when it fails. */
  datatype Outcome = Outcome(bus: Bus, error: Option<BusError>)

  /** `RegisterDevice`: the registration is recorded before the range is inserted. */
  function Register(bus: Bus, device: Device, address: U64): Outcome {
    if Lookup(bus, address).Some? then Outcome(bus, Some(AlreadyMapped))
    else if device.size == 0 then Outcome(bus, Some(ZeroSize))
    else if device.name in bus.registrations then Outcome(bus, Some(DuplicateName))
    else
      var registration := Registration(device, address);
      var recorded := bus.(registrations := bus.registrations[device.name := registration], list := bus.list + [registration]);
      var inserted := Insert(recorded, Range(device, address, device.size, 0));
      if inserted.Err? then Outcome(recorded, Some(inserted.error))
      else Outcome(recorded.(ranges := inserted.value), None)
  }

  /** `Redirect`: the target is looked up, the source is not. */
  function Redirect(bus: Bus, source: U64, size: U64, target: U64): Outcome {
    var range := Lookup(bus, target);
    if range.None? then Outcome(bus, Some(TargetUnmapped))
    else if size == 0 then Outcome(bus, Some(ZeroSize))
    else
      var offset := Resolves(range.value, target);
      if offset.None? || WrapAdd(offset.value, size) > range.value.size then Outcome(bus, Some(NotEncapsulated))
      else
        var inserted := Insert(bus, Range(range.value.device, source, size, offset.value));
        if inserted.Err? then Outcome(bus, Some(inserted.error)) else Outcome(bus.(ranges := inserted.value), None)
  }

  // ---- What the bus keeps ----

  /** A range that has bytes and lies in one bucket. */
  predicate Proper(bucket: Positive, r: Range) {
    0 < r.size && Hash(bucket, r.start) == Hash(bucket, BusEnd(r))
  }

  /** The end of the range is beyond the address space; no address is then in it. */
  predicate Wraps(r: Range) {
    r.start + r.size >= WORD
  }

  predicate Before(a: Range, b: Range) {
    a.start <= b.start && BusEnd(a) <= b.start
  }

  /** In order of address, none reaching into the next. */
  predicate Ordered(ranges: seq<Range>) {
    forall i, j | 0 <= i < j < |ranges| :: Before(ranges[i], ranges[j])
  }

  predicate ValidBucket(bus: Bus, hash: nat)
    requires hash in bus.ranges
  {
    && Ordered(bus.ranges[hash])
    && forall r | r in bus.ranges[hash] :: Proper(bus.bucket, r) && Hash(bus.bucket, r.start) == hash
  }

  ghost predicate Valid(bus: Bus) {
    forall hash | hash in bus.ranges :: ValidBucket(bus, hash)
  }

  /** The range is somewhere on the bus. */
  ghost predicate OnBus(bus: Bus, r: Range) {
    exists hash :: hash in bus.ranges && r in bus.ranges[hash]
  }

  /** The range neither wraps nor leaves its device. */
  predicate Inside(r: Range) {
    !Wraps(r) && r.offset + r.size <= r.device.size
  }

  /** A valid bus on which every range is a part of its device. */
  ghost predicate Sound(bus: Bus) {
    Valid(bus) && forall r | OnBus(bus, r) :: Inside(r)
  }

  // ---- Lookup is a scan ----

  lemma HashMonotone(bucket: Positive, a: nat, b: nat)
    requires a <= b
    ensures Hash(bucket, a) <= Hash(bucket, b)
  {
    var q, p := a / bucket, b / bucket;
    assert a == q * bucket + a % bucket && b == p * bucket + b % bucket;
    QuotientBound(bucket, q, p, a % bucket, b % bucket);
  }

  lemma QuotientBound(d: Positive, q: nat, p: nat, r: nat, s: nat)
    requires r < d && s < d && q * d + r <= p * d + s
    ensures q <= p
  {
    if q > p {
      MulAtLeast(d, q - p);
      MulSub(q, p, d);
      assert false;
    }
  }

  lemma MulSub(q: int, p: int, d: int)
    ensures (q - p) * d == q * d - p * d
  {}

  /** The addresses of a proper range are in its bucket. */
  lemma ContainedHash(bucket: Positive, r: Range, address: U64)
    requires Proper(bucket, r) && r.start <= address <= BusEnd(r)
    ensures Hash(bucket, address) == Hash(bucket, r.start)
  {
    HashMonotone(bucket, r.start, address);
    HashMonotone(bucket, address, BusEnd(r));
  }

  lemma OrderedTail(ranges: seq<Range>)
    requires ranges != [] && Ordered(ranges)
    ensures Ordered(ranges[1..])
  {
    var rest := ranges[1..];
    forall i, j | 0 <= i < j < |rest| ensures Before(rest[i], rest[j]) {
      assert rest[i] == ranges[i + 1] && rest[j] == ranges[j + 1];
    }
  }

  /** In an ordered list the search finds the range that contains the address. */
  lemma {:induction false} SearchIsScan(ranges: seq<Range>, address: U64, r: Range)
    requires Ordered(ranges)
    ensures var found := FirstEndingAfter(ranges, address);
      (found == Some(r) && r.start <= address) <==> r in ranges && Contains(r, address)
    ensures FirstEndingAfter(ranges, address).Some? ==> FirstEndingAfter(ranges, address).value in ranges
  {
    if ranges != [] {
      assert ranges == [ranges[0]] + ranges[1..];
      OrderedTail(ranges);
      SearchIsScan(ranges[1..], address, r);
      if r in ranges[1..] {
        var j :| 0 <= j < |ranges[1..]| && ranges[1..][j] == r;
        assert ranges[j + 1] == r && Before(ranges[0], ranges[j + 1]);
      }
    }
  }

  /** Looking an address up finds exactly the range on the bus that contains it. */
  lemma LookupIsScan(bus: Bus, address: U64, r: Range)
    requires Valid(bus)
    ensures Lookup(bus, address) == Some(r) <==> OnBus(bus, r) && Contains(r, address)
  {
    var hash := Hash(bus.bucket, address);
    if hash in bus.ranges {
      assert ValidBucket(bus, hash);
      SearchIsScan(bus.ranges[hash], address, r);
    }
    if OnBus(bus, r) && Contains(r, address) {
      var h :| h in bus.ranges && r in bus.ranges[h];
      assert ValidBucket(bus, h);
      ContainedHash(bus.bucket, r, address);
    }
  }

  // ---- Insertion ----

  lemma {:induction false} PositionIs(ranges: seq<Range>, start: U64)
    ensures var n := Position(ranges, start);
      (forall i | 0 <= i < n :: ranges[i].start < start) && (n < |ranges| ==> ranges[n].start >= start)
  {
    if ranges != [] && ranges[0].start < start {
      PositionIs(ranges[1..], start);
      var n := Position(ranges[1..], start);
      forall i | 0 <= i < 1 + n ensures ranges[i].start < start {
        if i > 0 { assert ranges[i] == ranges[1..][i - 1]; }
      }
    }
  }

  /** What insertion puts into a list. */
  lemma InsertedAt(ranges: seq<Range>, r: Range)
    requires InsertSorted(ranges, r).Ok?
    ensures var n, after := Position(ranges, r.start), InsertSorted(ranges, r).value;
      && |after| == |ranges| + 1 && after[n] == r
      && (forall i | 0 <= i < n :: after[i] == ranges[i])
      && (forall i | n < i < |after| :: after[i] == ranges[i - 1])
    ensures forall x :: x in InsertSorted(ranges, r).value <==> x == r || x in ranges
  {
    var n := Position(ranges, r.start);
    assert ranges == ranges[..n] + ranges[n..];
  }

  /** The start of the new range is not in `x`, unless the new one wraps and starts where `x` does. */
  predicate Admits(x: Range, r: Range) {
    Contains(x, r.start) ==> Wraps(r) && x.start == r.start
  }

  /** Insertion keeps the list ordered exactly when every range in it admits the new one. */
  lemma InsertOrderedIff(ranges: seq<Range>, r: Range)
    requires Ordered(ranges) && 0 < r.size && InsertSorted(ranges, r).Ok?
    ensures Ordered(InsertSorted(ranges, r).value) <==> forall x | x in ranges :: Admits(x, r)
  {
    var n, after := Position(ranges, r.start), InsertSorted(ranges, r).value;
    PositionIs(ranges, r.start);
    InsertedAt(ranges, r);
    if Ordered(after) { AllAdmit(ranges, r, n, after); }
    if forall x | x in ranges :: Admits(x, r) {
      forall i, j | 0 <= i < j < |after| ensures Before(after[i], after[j]) { OrderedPair(ranges, r, n, after, i, j); }
    }
  }

  lemma AllAdmit(ranges: seq<Range>, r: Range, n: nat, after: seq<Range>)
    requires Ordered(after) && 0 < r.size && n <= |ranges| && |after| == |ranges| + 1 && after[n] == r
    requires forall k | 0 <= k < n :: after[k] == ranges[k]
    requires forall k | n < k < |after| :: after[k] == ranges[k - 1]
    ensures forall x | x in ranges :: Admits(x, r)
  {
    forall x | x in ranges ensures Admits(x, r) {
      var i :| 0 <= i < |ranges| && ranges[i] == x;
      if i < n {
        assert Before(after[i], after[n]);
      } else {
        assert after[i + 1] == x && Before(after[n], after[i + 1]);
      }
    }
  }

  lemma OrderedPair(ranges: seq<Range>, r: Range, n: nat, after: seq<Range>, i: nat, j: nat)
    requires Ordered(ranges) && forall x | x in ranges :: Admits(x, r)
    requires n <= |ranges| && |after| == |ranges| + 1 && after[n] == r && i < j < |after|
    requires forall k | 0 <= k < n :: after[k] == ranges[k] && ranges[k].start < r.start
    requires forall k | n < k < |after| :: after[k] == ranges[k - 1]
    requires n < |ranges| ==> r.start <= ranges[n].start && BusEnd(r) <= ranges[n].start
    ensures Before(after[i], after[j])
  {
    if i < n && j == n {
      assert ranges[i] in ranges && Admits(ranges[i], r);
    } else if i == n && j > n + 1 {
      assert Before(ranges[n], ranges[j - 1]);
    }
  }

  /** An accepted insertion adds its range and no other, and keeps the bus valid exactly when the start of the range was
      not mapped, or the range wraps and starts where the one mapped there does. */
  lemma InsertValidIff(bus: Bus, r: Range)
    requires Valid(bus) && Proper(bus.bucket, r) && Insert(bus, r).Ok?
    ensures var after := bus.(ranges := Insert(bus, r).value);
      && (Valid(after) <==> Lookup(bus, r.start).None? || (Wraps(r) && Lookup(bus, r.start).value.start == r.start))
      && (forall x :: OnBus(after, x) <==> x == r || OnBus(bus, x))
  {
    var hash := Hash(bus.bucket, r.start);
    var after := bus.(ranges := Insert(bus, r).value);
    if hash in bus.ranges {
      assert ValidBucket(bus, hash);
      InsertedAt(bus.ranges[hash], r);
      InsertOrderedIff(bus.ranges[hash], r);
      assert Valid(after) <==> ValidBucket(after, hash) by { OtherBuckets(bus, after, hash); }
      AdmittedIff(bus, r);
    } else {
      OtherBuckets(bus, after, hash);
      assert ValidBucket(after, hash);
    }
    forall x ensures OnBus(after, x) <==> x == r || OnBus(bus, x) { InsertOnBus(bus, after, hash, r, x); }
  }

  /** The ranges of the bucket admit the new one exactly as far as the lookup of its start says. */
  lemma AdmittedIff(bus: Bus, r: Range)
    requires Valid(bus) && Hash(bus.bucket, r.start) in bus.ranges
    ensures (forall x | x in bus.ranges[Hash(bus.bucket, r.start)] :: Admits(x, r)) <==>
            Lookup(bus, r.start).None? || (Wraps(r) && Lookup(bus, r.start).value.start == r.start)
  {
    var ranges := bus.ranges[Hash(bus.bucket, r.start)];
    assert ValidBucket(bus, Hash(bus.bucket, r.start));
    forall x | x in ranges ensures Contains(x, r.start) <==> Lookup(bus, r.start) == Some(x) { SearchIsScan(ranges, r.start, x); }
    if Lookup(bus, r.start).Some? { SearchIsScan(ranges, r.start, Lookup(bus, r.start).value); }
  }

  lemma OtherBuckets(bus: Bus, after: Bus, hash: nat)
    requires Valid(bus) && after.bucket == bus.bucket && hash in after.ranges
    requires after.ranges == bus.ranges[hash := after.ranges[hash]]
    ensures Valid(after) <==> ValidBucket(after, hash)
  {
    forall h | h in after.ranges && h != hash ensures ValidBucket(after, h) {
      assert ValidBucket(bus, h) && after.ranges[h] == bus.ranges[h];
    }
  }

  lemma InsertOnBus(bus: Bus, after: Bus, hash: nat, r: Range, x: Range)
    requires after.bucket == bus.bucket && hash in after.ranges && after.ranges == bus.ranges[hash := after.ranges[hash]]
    requires forall y :: y in after.ranges[hash] <==> y == r || (hash in bus.ranges && y in bus.ranges[hash])
    ensures OnBus(after, x) <==> x == r || OnBus(bus, x)
  {
    if OnBus(after, x) {
      var h :| h in after.ranges && x in after.ranges[h];
      if h != hash { assert h in bus.ranges && x in bus.ranges[h]; }
    }
    if x == r { assert x in after.ranges[hash]; }
    if OnBus(bus, x) {
      var h :| h in bus.ranges && x in bus.ranges[h];
      assert h in after.ranges && x in after.ranges[h];
    }
  }

  /** A range that was inserted lies in one bucket. */
  lemma InsertedProper(bus: Bus, r: Range)
    requires Insert(bus, r).Ok? && 0 < r.size
    ensures Proper(bus.bucket, r)
  {}

  lemma ProperOnBus(bus: Bus, r: Range)
    requires Valid(bus) && OnBus(bus, r)
    ensures Proper(bus.bucket, r)
  {
    var hash :| hash in bus.ranges && r in bus.ranges[hash];
    assert ValidBucket(bus, hash);
  }

  // ---- Registration ----

  /** A registration keeps the bus valid, whatever its address and size; one that succeeds adds the device's range, one
      that fails maps nothing new. */
  lemma RegisterKeeps(bus: Bus, device: Device, address: U64)
    requires Valid(bus)
    ensures var r := Register(bus, device, address);
      && Valid(r.bus)
      && (r.error.None? ==> forall x :: OnBus(r.bus, x) <==> x == Range(device, address, device.size, 0) || OnBus(bus, x))
      && (r.error.Some? ==> r.bus.ranges == bus.ranges)
  {
    var r := Register(bus, device, address);
    if r.error.None? {
      var range := Range(device, address, device.size, 0);
      var recorded := bus.(registrations := r.bus.registrations, list := r.bus.list);
      OtherFields(bus, recorded);
      InsertedProper(recorded, range);
      InsertValidIff(recorded, range);
      assert Lookup(recorded, address) == Lookup(bus, address);
      assert r.bus == recorded.(ranges := Insert(recorded, range).value);
      forall x ensures OnBus(recorded, x) <==> OnBus(bus, x) {}
    } else {
      OtherFields(bus, r.bus);
    }
  }

  lemma OtherFields(bus: Bus, after: Bus)
    requires after.ranges == bus.ranges && after.bucket == bus.bucket
    ensures Valid(after) <==> Valid(bus)
  {
    assert forall hash | hash in bus.ranges :: ValidBucket(after, hash) <==> ValidBucket(bus, hash);
  }

  /** Some range on the bus starts between the two addresses, the first one included. */
  ghost predicate StartsBetween(bus: Bus, from: U64, to: U64) {
    exists r :: OnBus(bus, r) && from <= r.start < to
  }

  /** A range cannot be inserted exactly when it spans buckets, or another one starts in it. */
  lemma InsertFailsIff(bus: Bus, r: Range)
    requires Valid(bus) && 0 < r.size
    ensures Insert(bus, r).Err? <==> Hash(bus.bucket, r.start) != Hash(bus.bucket, BusEnd(r)) || StartsBetween(bus, r.start, BusEnd(r))
  {
    var hash := Hash(bus.bucket, r.start);
    if hash == Hash(bus.bucket, BusEnd(r)) {
      if StartsBetween(bus, r.start, BusEnd(r)) {
        var x :| OnBus(bus, x) && r.start <= x.start < BusEnd(r);
        StartInBucket(bus, r, x);
      }
      if hash in bus.ranges {
        assert ValidBucket(bus, hash);
        ReachesNextIff(bus.ranges[hash], r);
        if x :| x in bus.ranges[hash] && r.start <= x.start < BusEnd(r) { assert OnBus(bus, x); }
      }
    }
  }

  /** What starts in a range of one bucket is in that bucket. */
  lemma StartInBucket(bus: Bus, r: Range, x: Range)
    requires Valid(bus) && Proper(bus.bucket, r) && OnBus(bus, x) && r.start <= x.start < BusEnd(r)
    ensures var hash := Hash(bus.bucket, r.start); hash in bus.ranges && x in bus.ranges[hash]
  {
    var h :| h in bus.ranges && x in bus.ranges[h];
    assert ValidBucket(bus, h);
    ContainedHash(bus.bucket, r, x.start);
  }

  lemma ReachesNextIff(ranges: seq<Range>, r: Range)
    requires Ordered(ranges)
    ensures InsertSorted(ranges, r).Err? <==> exists x | x in ranges :: r.start <= x.start < BusEnd(r)
  {
    var n := Position(ranges, r.start);
    PositionIs(ranges, r.start);
    if x :| x in ranges && r.start <= x.start < BusEnd(r) {
      var i :| 0 <= i < |ranges| && ranges[i] == x;
      if n < i { assert Before(ranges[n], ranges[i]); }
    }
  }

  /** The registration passes its checks and cannot be inserted: its start is not mapped, its size is not zero, its name
      is free, and it spans buckets or another range starts in it. */
  ghost predicate RefusedLate(bus: Bus, device: Device, address: U64) {
    && Lookup(bus, address).None? && device.size > 0 && device.name !in bus.registrations
    && var end := WrapAdd(address, device.size);
       Hash(bus.bucket, address) != Hash(bus.bucket, end) || StartsBetween(bus, address, end)
  }

  /** A registration fails and leaves its name taken exactly when it is refused at the insertion. */
  lemma FailedRegistrationStays(bus: Bus, device: Device, address: U64)
    requires Valid(bus)
    ensures var r := Register(bus, device, address);
      && (r.error.Some? && r.bus != bus <==> RefusedLate(bus, device, address))
      && (RefusedLate(bus, device, address) ==> r.bus.ranges == bus.ranges && device.name in r.bus.registrations)
  {
    var r, range := Register(bus, device, address), Range(device, address, device.size, 0);
    if Lookup(bus, address).None? && device.size > 0 && device.name !in bus.registrations {
      var registration := Registration(device, address);
      var recorded := bus.(registrations := bus.registrations[device.name := registration], list := bus.list + [registration]);
      InsertFailsIff(bus, range);
      SameRanges(bus, recorded, range);
      assert |recorded.list| == |bus.list| + 1;
    }
  }

  lemma SameRanges(bus: Bus, after: Bus, r: Range)
    requires after.ranges == bus.ranges && after.bucket == bus.bucket
    ensures Insert(after, r) == Insert(bus, r)
  {}

  // ---- What an address reaches ----

  /** The device and the byte of it that an address reaches. */
  function Reach(bus: Bus, address: U64): Option<(Device, U64)> {
    var r := Lookup(bus, address);
    if r.None? || Resolves(r.value, address).None? then None
    else Some((r.value.device, Resolves(r.value, address).value))
  }

  /** What a lookup reaches lies inside the device. */
  lemma ReachInside(bus: Bus, address: U64)
    requires Sound(bus) && Lookup(bus, address).Some?
    ensures Reach(bus, address).Some? && Reach(bus, address).value.1 < Reach(bus, address).value.0.size
  {
    var r := Lookup(bus, address).value;
    LookupIsScan(bus, address, r);
    assert Inside(r);
  }

  lemma ReachOf(bus: Bus, r: Range, address: U64)
    requires Sound(bus) && OnBus(bus, r) && Contains(r, address)
    ensures Reach(bus, address) == Some((r.device, r.offset + (address - r.start)))
  {
    LookupIsScan(bus, address, r);
    assert Inside(r);
  }

  /** No insertion at an unmapped address changes what an already mapped address reaches. */
  lemma InsertKeepsReach(bus: Bus, r: Range, address: U64)
    requires Valid(bus) && Proper(bus.bucket, r) && Insert(bus, r).Ok? && Lookup(bus, r.start).None?
    requires Lookup(bus, address).Some?
    ensures Reach(bus.(ranges := Insert(bus, r).value), address) == Reach(bus, address)
  {
    InsertValidIff(bus, r);
    var through := Lookup(bus, address).value;
    LookupIsScan(bus, address, through);
    LookupIsScan(bus.(ranges := Insert(bus, r).value), address, through);
  }

  // ---- Redirection ----

  /** None of the sums of a redirect wraps. */
  predicate NoWrap(bus: Bus, source: U64, size: U64, target: U64) {
    source + size < WORD && target + size < WORD &&
    (Reach(bus, target).Some? ==> Reach(bus, target).value.1 + size < WORD)
  }

  /** What an accepted redirect checked, and what it inserted. */
  lemma RedirectAccepted(bus: Bus, source: U64, size: U64, target: U64)
    requires Redirect(bus, source, size, target).error.None?
    ensures Lookup(bus, target).Some? && size > 0
    ensures var through := Lookup(bus, target).value;
      var offset := Resolves(through, target);
      && offset.Some? && WrapAdd(offset.value, size) <= through.size
      && Insert(bus, Range(through.device, source, size, offset.value)).Ok?
      && Redirect(bus, source, size, target).bus ==
         bus.(ranges := Insert(bus, Range(through.device, source, size, offset.value)).value)
  {}

  /** An accepted redirect keeps the bus valid exactly when its source was not mapped, which is not checked, or it wraps
      and starts where the range mapped there does. */
  lemma RedirectKeepsIff(bus: Bus, source: U64, size: U64, target: U64)
    requires Valid(bus) && Redirect(bus, source, size, target).error.None?
    ensures Valid(Redirect(bus, source, size, target).bus) <==>
            Lookup(bus, source).None? || (source + size >= WORD && Lookup(bus, source).value.start == source)
  {
    RedirectAccepted(bus, source, size, target);
    var through := Lookup(bus, target).value;
    var r := Range(through.device, source, size, Resolves(through, target).value);
    InsertedProper(bus, r);
    InsertValidIff(bus, r);
  }

  /** The part of a range that a redirect goes through. */
  lemma ThroughRange(through: Range, target: U64, size: U64)
    requires Inside(through) && Contains(through, target)
    requires Resolves(through, target).value + size < WORD && WrapAdd(Resolves(through, target).value, size) <= through.size
    ensures Resolves(through, target).value == through.offset + (target - through.start)
    ensures through.offset + (target - through.start) + size <= through.size && target + size <= BusEnd(through)
  {}

  /** The range that an accepted redirect inserts. */
  lemma RedirectRange(bus: Bus, source: U64, size: U64, target: U64) returns (r: Range, through: Range)
    requires Sound(bus) && NoWrap(bus, source, size, target) && Redirect(bus, source, size, target).error.None?
    ensures OnBus(bus, through) && Contains(through, target) && target + size <= BusEnd(through)
    ensures Proper(bus.bucket, r) && Inside(r) && r.device == through.device && r.start == source && r.size == size
    ensures r.offset == through.offset + (target - through.start)
    ensures Insert(bus, r).Ok? && Redirect(bus, source, size, target).bus == bus.(ranges := Insert(bus, r).value)
  {
    RedirectAccepted(bus, source, size, target);
    through := Lookup(bus, target).value;
    LookupIsScan(bus, target, through);
    assert Inside(through);
    ThroughRange(through, target, size);
    r := Range(through.device, source, size, Resolves(through, target).value);
    InsertedProper(bus, r);
  }

  /** After a redirect from an unmapped source, source and target addresses reach the same bytes. */
  lemma RedirectReaches(bus: Bus, source: U64, size: U64, target: U64, k: nat)
    requires Sound(bus) && NoWrap(bus, source, size, target) && k < size
    requires Redirect(bus, source, size, target).error.None? && Lookup(bus, source).None?
    ensures var after := Redirect(bus, source, size, target).bus;
      Reach(after, source + k).Some? && Reach(after, source + k) == Reach(after, target + k) == Reach(bus, target + k)
  {
    var r, through := RedirectRange(bus, source, size, target);
    InsertValidIff(bus, r);
    BothReach(bus, Redirect(bus, source, size, target).bus, r, through, target, k);
  }

  lemma BothReach(bus: Bus, after: Bus, r: Range, through: Range, target: U64, k: nat)
    requires Sound(bus) && Sound(after) && OnBus(bus, through) && OnBus(after, through) && OnBus(after, r)
    requires Contains(through, target) && k < r.size && target + r.size <= BusEnd(through) && r.start + r.size < WORD
    requires r.device == through.device && r.offset == through.offset + (target - through.start)
    ensures Reach(after, r.start + k).Some? && Reach(after, r.start + k) == Reach(after, target + k) == Reach(bus, target + k)
  {
    var from: U64, to: U64 := r.start + k, target + k;
    assert Contains(r, from) && Contains(through, to);
    assert Reach(after, from) == Some((r.device, r.offset + k)) by { ReachOf(after, r, from); }
    assert Reach(after, to) == Some((r.device, r.offset + k)) by { ReachOf(after, through, to); }
    assert Reach(bus, to) == Some((r.device, r.offset + k)) by { ReachOf(bus, through, to); }
  }

  // ---- Runs ----

  datatype Op = RegisterOp(device: Device, address: U64) | RedirectOp(source: U64, size: U64, target: U64)

  function Step(bus: Bus, op: Op): Bus {
    match op
    case RegisterOp(device, address) => Register(bus, device, address).bus
    case RedirectOp(source, size, target) => Redirect(bus, source, size, target).bus
  }

  function RunOps(bus: Bus, ops: seq<Op>): Bus
    decreases |ops|
  {
    if ops == [] then bus else RunOps(Step(bus, ops[0]), ops[1..])
  }

  /** A redirect that is accepted starts at an unmapped address; registrations may be anything. */
  predicate CarefulOp(bus: Bus, op: Op) {
    op.RedirectOp? && Redirect(bus, op.source, op.size, op.target).error.None? ==> Lookup(bus, op.source).None?
  }

  predicate Careful(bus: Bus, ops: seq<Op>)
    decreases |ops|
  {
    ops == [] || (CarefulOp(bus, ops[0]) && Careful(Step(bus, ops[0]), ops[1..]))
  }

  function EmptyBus(bucket: Positive): Bus {
    Bus(bucket, map[], map[], [])
  }

  lemma {:induction false} RunKeepsValid(bus: Bus, ops: seq<Op>)
    requires Valid(bus) && Careful(bus, ops)
    ensures Valid(RunOps(bus, ops))
    decreases |ops|
  {
    if ops != [] {
      match ops[0] {
        case RegisterOp(device, address) => RegisterKeeps(bus, device, address);
        case RedirectOp(source, size, target) =>
          if Redirect(bus, source, size, target).error.None? { RedirectKeepsIff(bus, source, size, target); }
      }
      RunKeepsValid(Step(bus, ops[0]), ops[1..]);
    }
  }

  /** From the empty bus, every sequence of operations whose accepted redirects start at unmapped addresses leaves a bus
      on which lookup is a scan; sizes are not bounded. */
  lemma CarefulRunIsScan(bucket: Positive, ops: seq<Op>, address: U64, r: Range)
    requires Careful(EmptyBus(bucket), ops)
    ensures var bus := RunOps(EmptyBus(bucket), ops);
      Lookup(bus, address) == Some(r) <==> OnBus(bus, r) && Contains(r, address)
  {
    RunKeepsValid(EmptyBus(bucket), ops);
    LookupIsScan(RunOps(EmptyBus(bucket), ops), address, r);
  }

  /** The operation is careful and its sums do not wrap. */
  predicate BoundedOp(bus: Bus, op: Op) {
    && CarefulOp(bus, op)
    && match op
       case RegisterOp(device, address) => address + device.size < WORD
       case RedirectOp(source, size, target) => NoWrap(bus, source, size, target)
  }

  predicate BoundedOps(bus: Bus, ops: seq<Op>)
    decreases |ops|
  {
    ops == [] || (BoundedOp(bus, ops[0]) && BoundedOps(Step(bus, ops[0]), ops[1..]))
  }

  lemma StepKeepsSound(bus: Bus, op: Op)
    requires Sound(bus) && BoundedOp(bus, op)
    ensures Sound(Step(bus, op))
  {
    match op
    case RegisterOp(device, address) =>
      RegisterKeeps(bus, device, address);
      if Register(bus, device, address).error.Some? { SameOnBus(bus, Register(bus, device, address).bus); }
    case RedirectOp(source, size, target) =>
      if Redirect(bus, source, size, target).error.None? {
        var r, through := RedirectRange(bus, source, size, target);
        InsertValidIff(bus, r);
      }
  }

  lemma SameOnBus(bus: Bus, after: Bus)
    requires after.ranges == bus.ranges
    ensures forall r :: OnBus(after, r) <==> OnBus(bus, r)
  {}

  /** When nothing wraps either, every mapped address reaches a byte inside its device throughout the run. */
  lemma {:induction false} RunKeepsInside(bus: Bus, ops: seq<Op>)
    requires Sound(bus) && BoundedOps(bus, ops)
    ensures Sound(RunOps(bus, ops))
    decreases |ops|
  {
    if ops != [] {
      StepKeepsSound(bus, ops[0]);
      RunKeepsInside(Step(bus, ops[0]), ops[1..]);
    }
  }

  /** A name that is taken stays taken, so every later registration under it fails, wherever it is tried. */
  lemma {:induction false} NameStaysTaken(bus: Bus, ops: seq<Op>, device: Device, address: U64)
    requires device.name in bus.registrations
    ensures Register(RunOps(bus, ops), device, address).error.Some?
    decreases |ops|
  {
    if ops != [] { NameStaysTaken(Step(bus, ops[0]), ops[1..], device, address); }
  }

  // ---- Inputs ----

  const SMALL: Device := Device("a", 0x20)
  const OTHER: Device := Device("b", 0x20)

  /** A bus of 4 KiB buckets with one device of 32 bytes at the given address. */
  function OneDevice(address: U64): Bus {
    var r := Registration(SMALL, address);
    Bus(0x1000, map[0 := [Range(SMALL, address, 0x20, 0)]], map["a" := r], [r])
  }

  lemma LowHash(address: U64)
    requires address < 0x1000
    ensures Hash(0x1000, address) == 0
  {
    ModSmall(address, 0x1000);
  }

  lemma OneDeviceRegistered(address: U64)
    requires address + 0x20 < 0x1000
    ensures Register(EmptyBus(0x1000), SMALL, address) == Outcome(OneDevice(address), None)
  {
    LowHash(address);
    LowHash(address + 0x20);
  }

  /** A redirect whose source is mapped is accepted, and its range is then on the bus and not found. */
  lemma MappedSourceHides()
    ensures Register(EmptyBus(0x1000), SMALL, 0) == Outcome(OneDevice(0), None)
    ensures var r := Redirect(OneDevice(0), 8, 8, 0);
      var inserted := Range(SMALL, 8, 8, 0);
      && r.error.None? && OnBus(r.bus, inserted) && Contains(inserted, 8)
      && Lookup(r.bus, 8) == Some(Range(SMALL, 0, 0x20, 0))
  {
    OneDeviceRegistered(0);
    LowHash(0);
    LowHash(8);
    LowHash(16);
    var device, inserted := Range(SMALL, 0, 0x20, 0), Range(SMALL, 8, 8, 0);
    var r := Redirect(OneDevice(0), 8, 8, 0);
    assert Position([device], 8) == 1 by { assert [device][1..] == []; }
    assert [device][..1] + [inserted] + [device][1..] == [device, inserted];
    assert InsertSorted([device], inserted) == Ok([device, inserted]);
    assert r.bus.ranges[0] == [device, inserted];
  }

  /** A device that reaches into another one is refused and leaves its name taken: it cannot be registered elsewhere. */
  lemma RefusedNameIsTaken()
    ensures Register(EmptyBus(0x1000), SMALL, 0x10) == Outcome(OneDevice(0x10), None)
    ensures var r := Register(OneDevice(0x10), OTHER, 0);
      && r.error == Some(Overlaps) && r.bus.ranges == OneDevice(0x10).ranges
      && Register(r.bus, OTHER, 0x100).error == Some(DuplicateName)
  {
    OneDeviceRegistered(0x10);
    LowHash(0);
    LowHash(0x20);
    LowHash(0x100);
    var device := Range(SMALL, 0x10, 0x20, 0);
    assert Position([device], 0) == 0 && [device][1..] == [];
    assert FirstEndingAfter([device][1..], 0x100) == None;
    assert FirstEndingAfter([device], 0x100) == None;
    assert Lookup(Register(OneDevice(0x10), OTHER, 0).bus, 0x100) == None;
  }
}
