/** Clients of the driver: whole reads on a simulated sensor, whose results
    follow from the contracts of the driver alone. */
module VCNL40xxScenarios {
  import opened Registers
  import opened I2C
  import opened Time
  import opened VCNL40xx
  import opened VCNL40xxProperties

  /** A register file holding `hi, lo` at `reg` and `reg + 1`, `intStat` in
      the interrupt-status register and zero elsewhere. */
  function SimulatedRegisters(reg: Addr, hi: Byte, lo: Byte, intStat: Byte): (regs: RegisterFile)
    requires reg < 255 && reg != INT_STAT && reg + 1 != INT_STAT
    ensures Word(regs, reg) == hi as int * 256 + lo as int
    ensures regs[INT_STAT] == intStat
  {
    seq(256, i => if i == reg then hi else if i == reg + 1 then lo else if i == INT_STAT then intStat else 0)
  }

  /** A VCNL4000 whose first status read already shows PROXIMITY_READY and
      whose proximity register holds 0x1234 reads 4660 without sleeping. */
  method ProximityReadyOnFirstPoll() returns (r: Reading, slept: int)
    ensures r == Value(4660) && slept == 0
  {
    var device := new Device(SimulatedRegisters(PROXIMITY_DATA, 0x12, 0x34, 0), _ => PROXIMITY_READY);
    var clock := new Clock(0);
    var sensor := new Sensor(device, clock, VCNL4000);
    r := sensor.ReadProximity(1000);
    slept := clock.now;
  }

  /** A sensor whose status never shows a ready bit fails a 10 ms ambient
      read after ten status reads and ten milliseconds of sleep, and never
      reads the data register. */
  method AmbientTimesOut(v: Variant) returns (r: Reading, slept: int, polls: nat, trace: seq<Event>)
    ensures r == RuntimeError && slept == 10 && polls == 10
    ensures forall i :: 0 <= i < |trace| ==> !trace[i].ReadWord?
  {
    var device := new Device(SimulatedRegisters(AMBIENT_DATA, 0xAB, 0xCD, 0), _ => 0x00);
    var clock := new Clock(0);
    var sensor := new Sensor(device, clock, v);
    PollTimesOutIffNeverReady(device.status, device.statusReads, AMBIENT_READY, 10);
    r := sensor.ReadAmbient(10);
    slept := clock.now;
    polls := device.statusReads;
    trace := device.trace;
  }

  /** On a VCNL4010 whose interrupt-status register holds 0xC0, a proximity
      read clears bit 0x80 and keeps bit 0x40. */
  method StaleProximityInterruptCleared() returns (intStat: Byte)
    ensures intStat == 0x40
  {
    var device := new Device(SimulatedRegisters(PROXIMITY_DATA, 0, 1, 0xC0), _ => PROXIMITY_READY);
    var clock := new Clock(0);
    var sensor := new Sensor(device, clock, VCNL4010);
    var _ := sensor.ReadProximity(1000);
    intStat := device.regs[INT_STAT];
  }
}
