/**
 * The Snowflake identifier generator: a 64-bit id made of the milliseconds
 * since a fixed epoch (shifted left by 22), a 5-bit datacenter id (shifted by
 * 17), a 5-bit machine id (shifted by 12) and a per-millisecond counter.
 */
module Snowflake {

  import opened Wrappers
  import opened Bits
  import EurekaConfig

  /** 2024-01-01T00:00:00Z in milliseconds since the Unix epoch. */
  const EPOCH: int := 1704067200000
  const DATACENTER_ID_BITS: nat := 5
  const MACHINE_ID_BITS: nat := 5
  const SEQUENCE_BITS: nat := 12

  /** Java's `<<` on a value that does not overflow. */
  function ShiftLeft(x: int, n: nat): int {
    x * Pow2(n)
  }

  /** Java's `~` on a two's-complement integer. */
  function BitNot(x: int): int {
    -x - 1
  }

  /** The field masks, `~(-1L << bits)`; `MaskConstants` derives each value from its bit count. */
  const MAX_DATACENTER_ID: int := 31
  const MAX_MACHINE_ID: int := 31
  const SEQUENCE_MASK: int := 4095

  /** How far each field is shifted left in an id. */
  const TIMESTAMP_LEFT_SHIFT: nat := DATACENTER_ID_BITS + MACHINE_ID_BITS + SEQUENCE_BITS
  const DATACENTER_ID_SHIFT: nat := MACHINE_ID_BITS + SEQUENCE_BITS
  const MACHINE_ID_SHIFT: nat := SEQUENCE_BITS

  /** `~(-1L << n)` is the mask of the low `n` bits, and the shifts are by 22, 17 and 12 bits. */
  lemma MaskConstants()
    ensures MAX_DATACENTER_ID == BitNot(ShiftLeft(-1, DATACENTER_ID_BITS))
    ensures MAX_MACHINE_ID == BitNot(ShiftLeft(-1, MACHINE_ID_BITS))
    ensures SEQUENCE_MASK == BitNot(ShiftLeft(-1, SEQUENCE_BITS))
    ensures ShiftLeft(1, TIMESTAMP_LEFT_SHIFT) == 4194304 && ShiftLeft(1, DATACENTER_ID_SHIFT) == 131072
    ensures ShiftLeft(1, MACHINE_ID_SHIFT) == 4096
  {
    Pow2Values();
  }

  // ---------------------------------------------------------------------------
  // Identifier layout

  /**
   * The id expression of `generateId`, `((delta << 22) | (dc << 17)) | (machine << 12)) | sequence`
   * with Java's left-to-right evaluation of `|`; the sequence is OR'd in as it is, unmasked.
   */
  function PackId(delta: nat, datacenterId: nat, machineId: nat, sequence: nat): nat {
    // delta << 22, datacenterId << 17, machineId << 12
    BitOr(BitOr(BitOr(delta * 4194304, datacenterId * 131072), machineId * 4096), sequence)
  }

  /** `id >> 22` for a non-negative id. */
  function TimestampField(id: nat): nat {
    id / 4194304  // 2^22
  }

  /** `(id >> 17) & 31` for a non-negative id (a low-bit mask is a remainder). */
  function DatacenterField(id: nat): nat {
    (id / 131072) % 32  // 2^17, 2^5
  }

  /** `(id >> 12) & 31` for a non-negative id. */
  function MachineField(id: nat): nat {
    (id / 4096) % 32  // 2^12, 2^5
  }

  /** `id & 4095` for a non-negative id. */
  function SequenceField(id: nat): nat {
    id % 4096  // 2^12
  }

  /** The three high fields OR'd together are just their sum: their bits are disjoint. */
  lemma PackPrefix(delta: nat, datacenterId: nat, machineId: nat)
    requires datacenterId < 32 && machineId < 32
    ensures BitOr(BitOr(delta * 4194304, datacenterId * 131072), machineId * 4096)
         == ((delta * 32 + datacenterId) * 32 + machineId) * 4096
  {
    Pow2Values();
    assert delta * 4194304 == (delta * 32) * 131072;
    OrShifted(delta * 32, datacenterId, 17, 131072);
    OrDisjoint(delta, datacenterId, 5, 32);
    var x := delta * 32 + datacenterId;
    assert x * 131072 == (x * 32) * 4096;
    OrShifted(x * 32, machineId, 12, 4096);
    OrDisjoint(x, machineId, 5, 32);
  }

  /** With every node field and the counter in range, the id is the plain sum of its shifted fields. */
  lemma PackedLayout(delta: nat, datacenterId: nat, machineId: nat, sequence: nat)
    requires datacenterId <= MAX_DATACENTER_ID && machineId <= MAX_MACHINE_ID && sequence <= SEQUENCE_MASK
    ensures PackId(delta, datacenterId, machineId, sequence)
         == delta * 4194304 + datacenterId * 131072 + machineId * 4096 + sequence
  {
    Pow2Values();
    PackPrefix(delta, datacenterId, machineId);
    OrDisjoint((delta * 32 + datacenterId) * 32 + machineId, sequence, 12, 4096);
  }

  /**
   * While the counter is at most 4095, every field decodes back out of the id, and an id whose
   * timestamp delta is below 2^41 (0x200_0000_0000) is a non-negative Java `long` (below 2^63).
   */
  lemma PackDecodes(delta: nat, datacenterId: nat, machineId: nat, sequence: nat)
    requires datacenterId <= MAX_DATACENTER_ID && machineId <= MAX_MACHINE_ID && sequence <= SEQUENCE_MASK
    ensures var id := PackId(delta, datacenterId, machineId, sequence);
      && TimestampField(id) == delta
      && DatacenterField(id) == datacenterId
      && MachineField(id) == machineId
      && SequenceField(id) == sequence
      && (delta < 0x200_0000_0000 ==> id < 0x8000_0000_0000_0000)
  {
    PackedLayout(delta, datacenterId, machineId, sequence);
    LayoutDecodes(delta, datacenterId, machineId, sequence);
  }

  /** Division and remainder by the field widths recover the summands of the layout. */
  lemma LayoutDecodes(delta: nat, datacenterId: nat, machineId: nat, sequence: nat)
    requires datacenterId < 32 && machineId < 32 && sequence < 4096
    ensures var id := delta * 4194304 + datacenterId * 131072 + machineId * 4096 + sequence;
      && id / 4194304 == delta
      && (id / 131072) % 32 == datacenterId
      && (id / 4096) % 32 == machineId
      && id % 4096 == sequence
  {
    var id := delta * 4194304 + datacenterId * 131072 + machineId * 4096 + sequence;
    var x := delta * 32 + datacenterId;
    var y := x * 32 + machineId;
    assert id == y * 4096 + sequence;
    assert id == x * 131072 + (machineId * 4096 + sequence);
    DivMod(y, sequence, 4096);
    DivMod(x, machineId * 4096 + sequence, 131072);
    DivMod(delta, datacenterId * 131072 + machineId * 4096 + sequence, 4194304);
    DivMod(x, machineId, 32);
    DivMod(delta, datacenterId, 32);
  }

  /** Euclidean division of `q * d + r` by `d` with `r < d`. */
  lemma DivMod(q: nat, r: nat, d: nat)
    requires r < d
    ensures (q * d + r) / d == q && (q * d + r) % d == r
  {
    var n := q * d + r;
    var k := n / d;
    var m := n % d;
    assert n == k * d + m;
    if k < q {
      assert (q - k) * d == q * d - k * d;
      MulAtLeast(q - k, d);
    } else if k > q {
      assert (k - q) * d == k * d - q * d;
      MulAtLeast(k - q, d);
    }
  }

  lemma {:induction false} MulAtLeast(a: nat, d: nat)
    requires a >= 1
    ensures a * d >= d
  {
    if a > 1 {
      MulAtLeast(a - 1, d);
      assert a * d == (a - 1) * d + d;
    }
  }

  predicate Before(ts1: int, seq1: int, ts2: int, seq2: int) {
    ts1 < ts2 || (ts1 == ts2 && seq1 < seq2)
  }

  /** While the counter stays within 12 bits, a later (timestamp, counter) pair gives a larger id. */
  lemma PackStrictlyIncreasing(delta1: nat, seq1: nat, delta2: nat, seq2: nat, datacenterId: nat, machineId: nat)
    requires datacenterId <= MAX_DATACENTER_ID && machineId <= MAX_MACHINE_ID
    requires seq1 <= SEQUENCE_MASK && seq2 <= SEQUENCE_MASK
    requires Before(delta1, seq1, delta2, seq2)
    ensures PackId(delta1, datacenterId, machineId, seq1) < PackId(delta2, datacenterId, machineId, seq2)
  {
    PackedLayout(delta1, datacenterId, machineId, seq1);
    PackedLayout(delta2, datacenterId, machineId, seq2);
  }

  /**
   * The unmasked counter after a 4096-id millisecond is 4096 = 1 << 12: OR'd into the id it sets
   * the low bit of the machine field, so machine 30 emits exactly the id machine 31 would.
   */
  lemma RolloverBleedsIntoMachineField(delta: nat)
    ensures PackId(delta, 24, 30, 4096) == PackId(delta, 24, 31, 0)
    ensures MachineField(PackId(delta, 24, 30, 4096)) == 31
  {
    Pow2Values();
    PackPrefix(delta, 24, 30);
    var x := (delta * 32 + 24) * 32 + 30;
    OrShifted(x, 1, 12, 4096);
    assert BitOr(x, 1) == x + 1;
    PackedLayout(delta, 24, 31, 0);
    PackDecodes(delta, 24, 31, 0);
  }

  // ---------------------------------------------------------------------------
  // Construction

  datatype ConfigError = DatacenterIdOutOfRange | MachineIdOutOfRange

  datatype GenerateError = ClockMovedBackwards

  /** The constructor's range checks, datacenter first; `None` when both ids are accepted. */
  function CheckNodeIds(datacenterId: int, machineId: int): (r: Option<ConfigError>)
    ensures r == None <==> 0 <= datacenterId <= 31 && 0 <= machineId <= 31
    ensures !(0 <= datacenterId <= 31) ==> r == Some(DatacenterIdOutOfRange)
    ensures 0 <= datacenterId <= 31 && !(0 <= machineId <= 31) ==> r == Some(MachineIdOutOfRange)
  {
    if datacenterId > MAX_DATACENTER_ID || datacenterId < 0 then Some(DatacenterIdOutOfRange)
    else if machineId > MAX_MACHINE_ID || machineId < 0 then Some(MachineIdOutOfRange)
    else None
  }

  /** Both configured node ids pass the constructor's checks. */
  lemma EurekaConfigAccepted()
    ensures CheckNodeIds(EurekaConfig.CurrentDataCenterIn5Bit(), EurekaConfig.CurrentInstanceIndex()) == None
  {
  }

  // ---------------------------------------------------------------------------
  // The wall clock

  /** No reading from tick `from` up to (not including) tick `until` is later than `t`. */
  ghost predicate NoneLater(reading: nat -> int, from: nat, until: nat, t: int)
    decreases until
  {
    until <= from || (NoneLater(reading, from, until - 1, t) && reading(until - 1) <= t)
  }

  /** `NoneLater` is the bounded universal statement it abbreviates. */
  lemma {:induction false} NoneLaterMeans(reading: nat -> int, from: nat, until: nat, t: int)
    ensures NoneLater(reading, from, until, t) <==> (forall j :: from <= j < until ==> reading(j) <= t)
    decreases until
  {
    if until > from {
      NoneLaterMeans(reading, from, until - 1, t);
    }
  }

  /** Some reading at or after tick `from` is later than `t`. */
  ghost predicate EventuallyExceeds(reading: nat -> int, from: nat, t: int) {
    exists k: nat :: from <= k && reading(k) > t
  }

  /** A clock whose readings never go backwards: a later call never reads an earlier time. */
  ghost predicate NeverBackwards(reading: nat -> int) {
    forall i: nat, j: nat :: i <= j ==> reading(i) <= reading(j)
  }

  /** The readings from tick `from` up to (not including) tick `until` never go backwards. */
  ghost predicate Ordered(reading: nat -> int, from: nat, until: nat)
    decreases until
  {
    until <= from + 1 || (Ordered(reading, from, until - 1) && reading(until - 2) <= reading(until - 1))
  }

  /** A clock that never goes backwards gives ordered readings over every range of ticks. */
  lemma {:induction false} NeverBackwardsOrdered(reading: nat -> int, from: nat, until: nat)
    requires NeverBackwards(reading)
    ensures Ordered(reading, from, until)
    decreases until
  {
    if until > from + 1 {
      NeverBackwardsOrdered(reading, from, until - 1);
      assert reading(until - 2) <= reading(until - 1);
    }
  }

  /**
   * A reading at tick `at` behind `last`, the previous reading (or `last0` at the first tick),
   * means the readings from `from` on were not ordered starting from `last0`.
   */
  lemma BackwardsNotOrdered(reading: nat -> int, from: nat, last0: int, at: nat, last: int)
    requires from <= at && reading(at) < last
    requires at == from ==> last == last0
    requires at > from ==> last == reading(at - 1)
    ensures !(Ordered(reading, from, at + 1) && last0 <= reading(from))
  {
  }

  /**
   * `System.currentTimeMillis()` as a stream of readings: the n-th call returns `reading(n)`.
   * Readings may go backwards, but never before the id epoch, and the clock always advances
   * past any time eventually.
   */
  class Clock {
    const reading: nat -> int
    var ticks: nat

    ghost predicate Valid() {
      && (forall k: nat :: reading(k) >= EPOCH)
      && Advances()
    }

    ghost predicate Advances() {
      forall from: nat, t: int :: EventuallyExceeds(reading, from, t)
    }

    constructor (reading: nat -> int)
      ensures this.reading == reading && ticks == 0
    {
      this.reading := reading;
      ticks := 0;
    }

    method CurrentTimeMillis() returns (t: int)
      modifies this
      ensures ticks == old(ticks) + 1 && t == reading(old(ticks))
    {
      t := reading(ticks);
      ticks := ticks + 1;
    }
  }

  // ---------------------------------------------------------------------------
  // The generator

  /** Putting a key and then removing it leaves the map as removing it alone would. */
  lemma RemoveUpdated(m: map<int, int>, key: int, value: int)
    ensures m[key := value] - {key} == m - {key}
  {
  }

  class SnowflakeIdGenerator {
    const datacenterId: nat
    const machineId: nat
    /** The raw counter; it is never masked when stored. */
    var sequence: nat
    var lastTimestamp: int
    var threadWaitCount: map<int, int>
    /** Every id returned so far, oldest first. */
    ghost var issued: seq<int>

    ghost predicate Valid()
      reads this
    {
      && datacenterId <= 31 && machineId <= 31
      && threadWaitCount == map[]
      && (issued == [] ==> lastTimestamp == -1 && sequence == 0)
      && (issued != [] ==> lastTimestamp >= EPOCH)
    }

    /** Allocation once the node ids have passed `CheckNodeIds`; `Create` is the checking constructor. */
    constructor Init(datacenterId: nat, machineId: nat)
      requires CheckNodeIds(datacenterId, machineId) == None
      ensures Valid()
      ensures this.datacenterId == datacenterId && this.machineId == machineId
      ensures sequence == 0 && lastTimestamp == -1 && threadWaitCount == map[] && issued == []
    {
      this.datacenterId := datacenterId;
      this.machineId := machineId;
      sequence := 0;
      lastTimestamp := -1;
      threadWaitCount := map[];
      issued := [];
    }

    /** `new SnowflakeIdGenerator(config)`: fails when either node id is outside 0..31. */
    static method Create(datacenterId: int, machineId: int) returns (r: Result<SnowflakeIdGenerator, ConfigError>)
      ensures r.Failure? <==> CheckNodeIds(datacenterId, machineId) != None
      ensures r.Failure? ==> CheckNodeIds(datacenterId, machineId) == Some(r.error)
      ensures r.Success? ==> fresh(r.value) && r.value.Valid()
      ensures r.Success? ==> r.value.datacenterId == datacenterId && r.value.machineId == machineId
      ensures r.Success? ==> r.value.sequence == 0 && r.value.lastTimestamp == -1 && r.value.issued == []
    {
      var err := CheckNodeIds(datacenterId, machineId);
      if err.Some? {
        return Failure(err.value);
      }
      var g := new SnowflakeIdGenerator.Init(datacenterId, machineId);
      return Success(g);
    }

    /** The generator built from the deployment's configuration never fails its checks. */
    static method CreateFromEurekaConfig() returns (g: SnowflakeIdGenerator)
      ensures fresh(g) && g.Valid() && g.issued == []
      ensures g.datacenterId == EurekaConfig.CurrentDataCenterIn5Bit()
      ensures g.machineId == EurekaConfig.CurrentInstanceIndex()
    {
      EurekaConfigAccepted();
      var r := Create(EurekaConfig.CurrentDataCenterIn5Bit(), EurekaConfig.CurrentInstanceIndex());
      g := r.value;
    }

    /**
     * Reads the clock until it passes `lastTs`, holding a wait counter for `lastTs` meanwhile.
     * `waitCount` is the sleep length between readings (the sleeping itself is not modelled).
     */
    method WaitForNextMillis(lastTs: int, clock: Clock) returns (timestamp: int, waitCount: int)
      requires clock.Advances()
      modifies this`threadWaitCount, clock
      ensures timestamp > lastTs
      ensures clock.ticks > old(clock.ticks) && timestamp == clock.reading(clock.ticks - 1)
      ensures NoneLater(clock.reading, old(clock.ticks), clock.ticks - 1, lastTs)
      ensures waitCount == (if lastTs in old(threadWaitCount) then old(threadWaitCount)[lastTs] else 0) + 1
      ensures old(threadWaitCount) == map[] ==> waitCount == 1
      ensures threadWaitCount == old(threadWaitCount) - {lastTs}
    {
      ghost var start := clock.ticks;
      timestamp := clock.CurrentTimeMillis();
      waitCount := (if lastTs in threadWaitCount then threadWaitCount[lastTs] else 0) + 1;
      threadWaitCount := threadWaitCount[lastTs := waitCount];
      assert EventuallyExceeds(clock.reading, start, lastTs);
      ghost var k: nat :| start <= k && clock.reading(k) > lastTs;
      while timestamp <= lastTs
        invariant start + 1 <= clock.ticks <= k + 1
        invariant timestamp == clock.reading(clock.ticks - 1)
        invariant NoneLater(clock.reading, start, clock.ticks - 1, lastTs)
        invariant threadWaitCount == old(threadWaitCount)[lastTs := waitCount]
        decreases k + 1 - clock.ticks
      {
        timestamp := clock.CurrentTimeMillis();
      }
      RemoveUpdated(old(threadWaitCount), lastTs, waitCount);
      threadWaitCount := threadWaitCount - {lastTs};
    }

    /**
     * `generateId`: one clock reading; fails if it is behind the last timestamp, bumps the raw
     * counter on the same millisecond (waiting for the next one when its low 12 bits wrap to 0),
     * resets it on a new millisecond, then packs the id.
     */
    method GenerateId(clock: Clock) returns (r: Result<int, GenerateError>)
      requires Valid() && clock.Valid()
      modifies this, clock
      ensures Valid()
      ensures clock.ticks > old(clock.ticks)
      ensures var now := clock.reading(old(clock.ticks));
        && (now < old(lastTimestamp) ==>
              && r == Failure(ClockMovedBackwards)
              && clock.ticks == old(clock.ticks) + 1
              && lastTimestamp == old(lastTimestamp) && sequence == old(sequence) && issued == old(issued))
        && (now > old(lastTimestamp) ==>
              && r.Success? && clock.ticks == old(clock.ticks) + 1
              && sequence == 0 && lastTimestamp == now)
        && (now == old(lastTimestamp) ==>
              && r.Success? && sequence == old(sequence) + 1
              && ((old(sequence) + 1) % 4096 != 0 ==>
                    lastTimestamp == old(lastTimestamp) && clock.ticks == old(clock.ticks) + 1)
              && ((old(sequence) + 1) % 4096 == 0 ==>
                    && lastTimestamp > old(lastTimestamp)
                    && lastTimestamp == clock.reading(clock.ticks - 1)
                    && NoneLater(clock.reading, old(clock.ticks) + 1, clock.ticks - 1, old(lastTimestamp))))
      ensures r.Failure? ==>
        && r.error == ClockMovedBackwards
        && lastTimestamp == old(lastTimestamp) && sequence == old(sequence) && issued == old(issued)
      ensures r.Success? ==>
        && lastTimestamp >= old(lastTimestamp) && lastTimestamp >= EPOCH
        && Before(old(lastTimestamp), old(sequence), lastTimestamp, sequence)
        && lastTimestamp == clock.reading(clock.ticks - 1)
        && r.value == PackId(lastTimestamp - EPOCH, datacenterId, machineId, sequence)
        && issued == old(issued) + [r.value]
    {
      var timestamp := clock.CurrentTimeMillis();
      var lastTs := lastTimestamp;
      if timestamp < lastTs {
        return Failure(ClockMovedBackwards);
      }
      if timestamp == lastTs {
        sequence := sequence + 1;
        var low := sequence % (SEQUENCE_MASK + 1);
        if low == 0 {
          var waitCount;
          timestamp, waitCount := WaitForNextMillis(lastTs, clock);
        }
      } else {
        sequence := 0;
      }
      lastTimestamp := timestamp;
      var id := PackId(timestamp - EPOCH, datacenterId, machineId, sequence);
      issued := issued + [id];
      return Success(id);
    }
  }
}
