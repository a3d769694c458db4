/** The VCNL4000/VCNL4010 driver: trigger a measurement, poll the command
    register until a ready bit shows up or the deadline passes, then read
    the 16-bit result. The two variants differ only in the configuration
    byte written at construction and, for the VCNL4010, in clearing a stale
    interrupt-status bit before each measurement. */
module VCNL40xx {
  import opened Registers
  import opened I2C
  import opened Time

  datatype Variant = VCNL4000 | VCNL4010

  /** The two measurements the sensor offers, with the registers and bits
      each one uses. */
  datatype Measurement = Proximity | Ambient
  {
    function Command(): Byte
    {
      if Proximity? then MEASURE_PROXIMITY else MEASURE_AMBIENT
    }

    function ReadyBit(): Byte
    {
      if Proximity? then PROXIMITY_READY else AMBIENT_READY
    }

    function DataRegister(): Addr
    {
      if Proximity? then PROXIMITY_DATA else AMBIENT_DATA
    }

    /** The VCNL4010 interrupt-status bit cleared before this measurement. */
    function InterruptBit(): Byte
    {
      if Proximity? then INT_PROX_READY else INT_ALS_READY
    }
  }

  /** What a read returns: the 16-bit reading, or the `RuntimeError` raised
      when the ready bit did not appear before the deadline. */
  datatype Reading = Value(value: int) | RuntimeError

  /** `status & ~bit` on a byte: the new content of the interrupt-status
      register after `bit` is cleared. */
  function ClearBit(status: Byte, bit: Byte): (r: Byte)
    ensures r & bit == 0
    ensures r & !bit == status & !bit
    ensures r == status <==> status & bit == 0
  {
    status & !bit
  }

  /** `(result & ready) > 0`: at least one of the requested ready bits is set. */
  predicate IsReady(status: Byte, ready: Byte): (b: bool)
    ensures b ==> status != 0 && ready != 0
    ensures ready != 0 && status & ready == ready ==> b
  {
    status & ready != 0
  }

  /** Whether the sensor's `k`-th status read shows one of the `ready` bits. */
  predicate ReadyAt(status: nat -> Byte, k: nat, ready: Byte)
  {
    IsReady(status(k), ready)
  }

  /** How a poll ended: the number of status reads made in all, and whether
      it returned (`ready`) or raised the timeout error. */
  datatype PollResult = Polled(polls: nat, ready: bool)

  /** The polling loop, from the deadline check made `elapsed` milliseconds
      after the start: the deadline is checked first, then the status is
      read (the `base + elapsed`-th status read of the device), then one
      millisecond of sleep precedes the next check. */
  function Poll(status: nat -> Byte, base: nat, ready: Byte, timeout: int, elapsed: nat): (p: PollResult)
    ensures elapsed <= p.polls
    ensures p.ready ==> elapsed < p.polls <= timeout
    decreases timeout - elapsed
  {
    if elapsed >= timeout then Polled(elapsed, false)
    else if ReadyAt(status, base + elapsed, ready) then Polled(elapsed + 1, true)
    else Poll(status, base, ready, timeout, elapsed + 1)
  }

  /** The milliseconds a poll sleeps: one after every read that was not ready. */
  function Slept(p: PollResult): int
  {
    if p.ready then p.polls - 1 else p.polls
  }

  /** `n` reads of the command register. */
  function StatusPolls(n: nat): (t: seq<Event>)
    ensures |t| == n
    ensures forall i :: 0 <= i < n ==> t[i] == Read(COMMAND)
  {
    if n == 0 then [] else StatusPolls(n - 1) + [Read(COMMAND)]
  }

  /** The transfers a variant makes before the shared measurement sequence:
      none on the VCNL4000; on the VCNL4010 the read-modify-write that clears
      the measurement's interrupt bit, given the interrupt-status byte read. */
  function PreRead(v: Variant, m: Measurement, intStat: Byte): seq<Event>
  {
    match v
    case VCNL4000 => []
    case VCNL4010 => [Read(INT_STAT), Write(INT_STAT, ClearBit(intStat, m.InterruptBit()))]
  }

  /** The transfers of the shared sequence: command, poll, data. */
  function MeasureTrace(m: Measurement, p: PollResult): seq<Event>
  {
    [Write(COMMAND, m.Command())] + StatusPolls(p.polls) + (if p.ready then [ReadWord(m.DataRegister())] else [])
  }

  /** The full trace of `read_proximity` / `read_ambient` on variant `v`,
      given the interrupt-status byte and how the poll ended. */
  function ReadTrace(v: Variant, m: Measurement, intStat: Byte, p: PollResult): seq<Event>
  {
    PreRead(v, m, intStat) + MeasureTrace(m, p)
  }

  /** The register file after a read: the command register holds the
      command and, on the VCNL4010, the interrupt-status register has the
      measurement's interrupt bit cleared. */
  function AfterRead(v: Variant, m: Measurement, regs: RegisterFile): RegisterFile
  {
    match v
    case VCNL4000 => regs[COMMAND := m.Command()]
    case VCNL4010 => regs[INT_STAT := ClearBit(regs[INT_STAT], m.InterruptBit())][COMMAND := m.Command()]
  }

  /** The configuration write each variant makes when it is constructed. */
  function InitWrite(v: Variant): Event
  {
    match v
    case VCNL4000 => Write(PROXIMITY_ADJUST, VCNL4000_PROXIMITY_ADJUST_VALUE)
    case VCNL4010 => Write(INT_CONTROL, VCNL4010_INT_CONTROL_VALUE)
  }

  class Sensor {
    const device: Device
    const clock: Clock
    const variant: Variant

    /** Takes an already opened device and writes the variant's single
        configuration byte. */
    constructor (device: Device, clock: Clock, variant: Variant)
      modifies device
      ensures this.device == device && this.clock == clock && this.variant == variant
      ensures device.trace == old(device.trace) + [InitWrite(variant)]
      ensures device.regs == Apply(old(device.regs), InitWrite(variant))
      ensures device.statusReads == old(device.statusReads)
    {
      this.device := device;
      this.clock := clock;
      this.variant := variant;
      new;
      match variant
      case VCNL4000 =>
        device.Write8(PROXIMITY_ADJUST, VCNL4000_PROXIMITY_ADJUST_VALUE);
      case VCNL4010 =>
        device.Write8(INT_CONTROL, VCNL4010_INT_CONTROL_VALUE);
    }

    /** Polls the command register until one of the `ready` bits is set, or
        fails once `timeout` milliseconds have elapsed at a deadline check.
        Polling only reads: the register file is left as it was. */
    method WaitResponse(ready: Byte, timeout: int) returns (ok: bool)
      modifies device, clock
      ensures var p := Poll(device.status, old(device.statusReads), ready, timeout, 0);
        && ok == p.ready
        && device.trace == old(device.trace) + StatusPolls(p.polls)
        && device.statusReads == old(device.statusReads) + p.polls
        && clock.now == old(clock.now) + Slept(p)
      ensures device.regs == old(device.regs)
    {
      var start := clock.now;
      ghost var base := device.statusReads;
      ghost var status := device.status;
      ghost var outcome := Poll(status, base, ready, timeout, 0);
      ghost var polled: nat := 0;
      while true
        invariant device.regs == old(device.regs)
        invariant device.statusReads == base + polled
        invariant device.trace == old(device.trace) + StatusPolls(polled)
        invariant clock.now == start + polled
        invariant outcome == Poll(status, base, ready, timeout, polled)
        decreases timeout - polled
      {
        if clock.now - start >= timeout {
          return false;
        }
        var result := device.ReadU8(COMMAND);
        assert StatusPolls(polled + 1) == StatusPolls(polled) + [Read(COMMAND)];
        if IsReady(result, ready) {
          return true;
        }
        clock.Sleep(1);
        polled := polled + 1;
      }
    }

    /** The shared measurement sequence of the base class: write the command,
        wait for its ready bit, read the data register. */
    method Measure(m: Measurement, timeout: int) returns (r: Reading)
      modifies device, clock
      ensures var p := Poll(device.status, old(device.statusReads), m.ReadyBit(), timeout, 0);
        && device.trace == old(device.trace) + MeasureTrace(m, p)
        && device.statusReads == old(device.statusReads) + p.polls
        && clock.now == old(clock.now) + Slept(p)
        && r == if p.ready then Value(Word(old(device.regs), m.DataRegister())) else RuntimeError
      ensures device.regs == old(device.regs)[COMMAND := m.Command()]
    {
      device.Write8(COMMAND, m.Command());
      var ok := WaitResponse(m.ReadyBit(), timeout);
      if !ok {
        return RuntimeError;
      }
      var w := device.ReadU16BE(m.DataRegister());
      return Value(w);
    }

    /** VCNL4010 only: read the interrupt-status register, clear `bit`,
        write the result back. */
    method ClearInterrupt(bit: Byte)
      requires variant == VCNL4010
      modifies device
      ensures device.trace == old(device.trace) + [Read(INT_STAT), Write(INT_STAT, ClearBit(old(device.regs)[INT_STAT], bit))]
      ensures device.regs == old(device.regs)[INT_STAT := ClearBit(old(device.regs)[INT_STAT], bit)]
      ensures device.statusReads == old(device.statusReads)
    {
      var intStatus := device.ReadU8(INT_STAT);
      intStatus := ClearBit(intStatus, bit);
      device.Write8(INT_STAT, intStatus);
    }

    /** `read_proximity` of either variant. */
    method ReadProximity(timeout: int) returns (r: Reading)
      modifies device, clock
      ensures var p := Poll(device.status, old(device.statusReads), PROXIMITY_READY, timeout, 0);
        && device.trace == old(device.trace) + ReadTrace(variant, Proximity, old(device.regs)[INT_STAT], p)
        && device.statusReads == old(device.statusReads) + p.polls
        && clock.now == old(clock.now) + Slept(p)
        && r == if p.ready then Value(Word(old(device.regs), PROXIMITY_DATA)) else RuntimeError
      ensures device.regs == AfterRead(variant, Proximity, old(device.regs))
    {
      if variant == VCNL4010 {
        ClearInterrupt(INT_PROX_READY);
      }
      r := Measure(Proximity, timeout);
    }

    /** `read_ambient` of either variant. */
    method ReadAmbient(timeout: int) returns (r: Reading)
      modifies device, clock
      ensures var p := Poll(device.status, old(device.statusReads), AMBIENT_READY, timeout, 0);
        && device.trace == old(device.trace) + ReadTrace(variant, Ambient, old(device.regs)[INT_STAT], p)
        && device.statusReads == old(device.statusReads) + p.polls
        && clock.now == old(clock.now) + Slept(p)
        && r == if p.ready then Value(Word(old(device.regs), AMBIENT_DATA)) else RuntimeError
      ensures device.regs == AfterRead(variant, Ambient, old(device.regs))
    {
      if variant == VCNL4010 {
        ClearInterrupt(INT_ALS_READY);
      }
      r := Measure(Ambient, timeout);
    }
  }
}
