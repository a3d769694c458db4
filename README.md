# VCNL4000 / VCNL4010 proximity sensor driver, modelled in Dafny

This project models the register-level protocol of Adafruit's Python driver
for the VCNL4000 and VCNL4010 proximity / ambient-light sensors. A read
writes a measurement command to the command register (0x80). It then polls
that register until a ready bit shows, checking the deadline before every
status read. Finally it reads the 16-bit result register. The VCNL4000
writes 0x81 to the proximity-adjust register (0x8A) when it is constructed.
The VCNL4010 writes 0x08 to the interrupt-control register (0x89) instead.
Before each read, it also clears that measurement's bit in the
interrupt-status register (0x8E), by a read-modify-write.

The model replaces the I2C device with a `Device` object. It holds a file of
256 byte registers and a trace of every bus transfer (`Write`, `Read`,
`ReadWord`). `Replay` gives the meaning of a trace: the register file its
writes produce. Lemmas show that replaying a read's trace yields exactly the
register file the read's contract promises. The status bits read back from the
command register come from the sensor, so they are an oracle
`status: nat -> Byte`, indexed by the number of status reads so far. Wall-clock
time is a `Clock` with a millisecond counter that only `Sleep` advances.

Files:
- `registers.dfy`: the register addresses, command codes and bits.
- `i2c.dfy`: the register file, the bus trace, `readU16BE`'s value and the `Device` class.
- `time.dfy`: the `Clock` class.
- `vcnl40xx.dfy`: the interrupt mask, the specification of the polling loop (`Poll`) and of a read's trace (`ReadTrace`), and the `Sensor` class. The methods of `Sensor` are proved against these specifications.
- `properties.dfy`: lemmas about those specifications.
- `scenarios.dfy`: client methods that run whole reads on a simulated sensor.

The two Python subclasses become one `Sensor` class with a `variant` field.
`ReadProximity` and `ReadAmbient` run the VCNL4010's interrupt clear when
`variant == VCNL4010`, then the shared base sequence `Measure`.

Two edge behaviours follow the code exactly:
- A timeout raises `RuntimeError`, not a dedicated timeout error. The model keeps only the error's kind, not its message ("Exceeded timeout waiting for VCNL40xx response, check your wiring.").
- The deadline is checked before the status read, so an expired budget means zero reads. Checking the status first would guarantee one read even with a zero timeout; the code does not do that.

## Model

| member | source | states |
|---|---|---|
| `I2C.Word` | Adafruit_VCNL40xx/VCNL40xx.py:92 | a 16-bit read is an unsigned value in [0, 65535] whose high byte is the addressed register and whose low byte is the next one |
| `I2C.Device.Write8` | Adafruit_VCNL40xx/VCNL40xx.py:89 | a write stores the byte in the addressed register only and appends one `Write` to the trace |
| `I2C.Device.ReadU8` | Adafruit_VCNL40xx/VCNL40xx.py:78 | a byte read changes no register; the command register answers with the sensor's next status byte, any other register with its stored byte |
| `I2C.Device.ReadU16BE` | Adafruit_VCNL40xx/VCNL40xx.py:101 | a 16-bit read changes no register and returns `Word` of the addressed register |
| `Time.Clock.Sleep` | Adafruit_VCNL40xx/VCNL40xx.py:82 | sleeping advances the clock by the given number of milliseconds |
| `VCNL40xx.ClearBit` | Adafruit_VCNL40xx/VCNL40xx.py:127 | `status & ~bit` has `bit` cleared, keeps every other bit of `status`, and equals `status` exactly when `bit` was already clear |
| `VCNL40xx.IsReady` | Adafruit_VCNL40xx/VCNL40xx.py:79 | `(result & ready) > 0`: a zero status or an empty mask is never ready, and a status with every requested bit set always is |
| `VCNL40xx.Poll` | Adafruit_VCNL40xx/VCNL40xx.py:72-82 | the specification of the polling loop (deadline check, status read, sleep); the total read count is at least the number of checks already made, and a ready outcome takes at least one more read and stays within the timeout |
| `VCNL40xx.Sensor.constructor` | Adafruit_VCNL40xx/VCNL40xx.py:104-121 | construction makes exactly one bus transfer: 0x81 written to 0x8A on a VCNL4000, 0x08 written to 0x89 on a VCNL4010 |
| `VCNL40xx.Sensor.WaitResponse` | Adafruit_VCNL40xx/VCNL40xx.py:66-82 | the loop returns or raises as `Poll` says, its trace is only status reads of 0x80, it sleeps once after every read that is not ready, and no register changes |
| `VCNL40xx.Sensor.Measure` | Adafruit_VCNL40xx/VCNL40xx.py:84-101 | the base read writes the command to 0x80, polls for its ready bit, then reads the data register only when the poll succeeded; otherwise it returns `RuntimeError`; only 0x80 changes |
| `VCNL40xx.Sensor.ClearInterrupt` | Adafruit_VCNL40xx/VCNL40xx.py:123-128 | reads 0x8E and writes back `ClearBit` of what it read; only 0x8E changes |
| `VCNL40xx.Sensor.ReadProximity` | Adafruit_VCNL40xx/VCNL40xx.py:130-137 | the bus trace is `ReadTrace` for the proximity measurement (with the interrupt clear on the VCNL4010); the result is the proximity register's word when the poll succeeded, else `RuntimeError`; the register file becomes `AfterRead` |
| `VCNL40xx.Sensor.ReadAmbient` | Adafruit_VCNL40xx/VCNL40xx.py:139-145 | the same for the ambient measurement: command 0x10, ready bit 0x40, data register 0x85, interrupt bit 0x40 |
| `VCNL40xxProperties.PollFrom` | Adafruit_VCNL40xx/VCNL40xx.py:73-82 | from any deadline check on, the poll returns only after a ready read that is the first ready one, and fails only at the deadline, having read once per elapsed millisecond |
| `VCNL40xxProperties.PollReturnsOnlyWhenReady` | Adafruit_VCNL40xx/VCNL40xx.py:78-80 | a normal return comes right after a status read showing a requested ready bit; no earlier read showed one; at least one and at most `timeout` reads were made |
| `VCNL40xxProperties.PollTimesOutIffNeverReady` | Adafruit_VCNL40xx/VCNL40xx.py:73-82 | the poll raises if and only if none of the reads the deadline allows shows a ready bit; it has then read once per millisecond of the timeout |
| `VCNL40xxProperties.PollBounded` | Adafruit_VCNL40xx/VCNL40xx.py:74-76 | the number of status reads never exceeds the timeout; with `timeout <= 0` the poll raises with zero reads |
| `VCNL40xxProperties.PollingLeavesRegisters` | Adafruit_VCNL40xx/VCNL40xx.py:73-82 | replaying any number of status polls leaves the register file unchanged |
| `VCNL40xxProperties.PollingWritesNothing` | Adafruit_VCNL40xx/VCNL40xx.py:73-82 | status polling contains no write to any register |
| `VCNL40xxProperties.ReadyOnAnyBit` | Adafruit_VCNL40xx/VCNL40xx.py:79 | a status is ready for a mask as soon as one of the mask's bits is set, not only when all are |
| `VCNL40xxProperties.ClearBitIdempotent` | Adafruit_VCNL40xx/VCNL40xx.py:126-128 | clearing the same interrupt bit twice equals clearing it once |
| `VCNL40xxProperties.CommandWrittenOnce` | Adafruit_VCNL40xx/VCNL40xx.py:89-90 | a read writes the command register exactly once, with the measurement's command, right after the variant's pre-read transfers |
| `VCNL40xxProperties.ClearBeforeCommand` | Adafruit_VCNL40xx/VCNL40xx.py:130-145 | on a VCNL4010 the trace opens with a read of the interrupt-status register and its single write-back with the measurement's bit cleared, and every access to it precedes the command write; a VCNL4000 never touches it |
| `VCNL40xxProperties.DataReadOnlyAfterReady` | Adafruit_VCNL40xx/VCNL40xx.py:89-92 | the data register is read at most once, as the last transfer, right after a status read that showed the ready bit; it is read if and only if the poll succeeded, so never after a timeout |
| `VCNL40xxProperties.MeasureWrites` | Adafruit_VCNL40xx/VCNL40xx.py:89-92 | the shared sequence writes the command register exactly once and no other register |
| `VCNL40xxProperties.PreReadWrites` | Adafruit_VCNL40xx/VCNL40xx.py:123-128 | the VCNL4010's interrupt clear writes 0x8E exactly once and no other register; the VCNL4000 has no pre-read transfers |
| `VCNL40xxProperties.ReadRegisters` | Adafruit_VCNL40xx/VCNL40xx.py:84-145 | replaying a read's trace gives `AfterRead`: only the command register (now the command) and, on a VCNL4010, the interrupt-status register (now with the measurement's bit cleared) change |
| `VCNL40xxScenarios.ProximityReadyOnFirstPoll` | Adafruit_VCNL40xx/VCNL40xx.py:84-92 | a VCNL4000 whose first status read shows 0x20 and whose proximity register holds 0x1234 returns 4660 without sleeping |
| `VCNL40xxScenarios.AmbientTimesOut` | Adafruit_VCNL40xx/VCNL40xx.py:94-101 | with a status that never shows a ready bit, a 10 ms ambient read raises after ten status reads and ten milliseconds of sleep, on either variant, and the data register is never read |
| `VCNL40xxScenarios.StaleProximityInterruptCleared` | Adafruit_VCNL40xx/VCNL40xx.py:123-137 | a VCNL4010 proximity read turns an interrupt status of 0xC0 into 0x40: bit 0x80 is cleared and bit 0x40 is kept |

## Left out

- Device acquisition through `Adafruit_GPIO.I2C.get_i2c_device` (lines 58-64), the default address 0x13 and the bus keyword arguments. That is a foreign library. The `Sensor` constructor takes an already opened `Device` instead.
- `I2C.Word`: the byte order inside `readU16BE` belongs to that library, which is not part of this model. The model assumes big-endian, high byte at the addressed register and low byte at the next one.
- `VCNL40xx.Sensor.WaitResponse`: real elapsed time is not modelled. `time.time()` becomes a millisecond counter that only `Sleep(1)` advances, so bus transfers take no time. Each iteration therefore takes exactly 1 ms, and a timed-out poll makes exactly `timeout` reads. On hardware it makes at most that many only if `time.time()` never steps backwards and each `time.sleep(0.001)` lasts at least 1 ms. The driver guarantees neither: a wall clock that steps back, or a sleep cut short by a signal, allows more reads, with no upper bound. `PollBounded` holds only for the model's clock.
- Timeouts are whole milliseconds, not float seconds. Python's default `timeout_sec=1` is `timeout == 1000` here.
- `VCNL40xx.ClearBit`: works on `bv8`. For a status byte and a byte-sized bit, Python's `int_status & ~intbit` gives the same value. The result is therefore a byte by its type.
- `VCNL40xx.Sensor.Measure`, `VCNL40xx.Sensor.ReadProximity`, `VCNL40xx.Sensor.ReadAmbient`, `VCNL40xx.AfterRead`: the sensor's own writes are not modelled, except the status byte of 0x80. A finished measurement stores its result in the data registers (0x85-0x88) and, on the VCNL4010, sets bits in the interrupt-status register 0x8E. In the model those registers change only through the driver's writes. So the returned word is the data register's content as the model holds it (unchanged by the read), and `AfterRead` describes what the driver's writes do, not what the device ends up holding.
- Errors the bus itself raises (device absent, bus failure) are not modelled. In Python they propagate unchanged.
- Constants no code uses: the frequency constants, `SIGNALFREQ`, `PROXRATE`, `MODTIMING`, `PRODUCTID`, `IRLED`, `AMBIENTPARAMETER`.
- The demo loop in `examples/simpletest.py`, which only prints readings.
