/** Register addresses, command codes and status bits of the VCNL4000 and
    VCNL4010 proximity / ambient light sensors, as the driver uses them. */
module Registers {

  /** A register value as it travels on the bus. */
  type Byte = bv8

  /** An address in the sensor's 8-bit register space. */
  type Addr = a: int | 0 <= a < 256

  // Registers common to both variants.
  const COMMAND: Addr := 0x80
  const AMBIENT_DATA: Addr := 0x85
  const PROXIMITY_DATA: Addr := 0x87
  const PROXIMITY_ADJUST: Addr := 0x8A

  // Command codes written to COMMAND, and the ready bits read back from it.
  const MEASURE_AMBIENT: Byte := 0x10
  const MEASURE_PROXIMITY: Byte := 0x08
  const AMBIENT_READY: Byte := 0x40
  const PROXIMITY_READY: Byte := 0x20

  // Registers and bits of the VCNL4010 only.
  const INT_CONTROL: Addr := 0x89
  const INT_STAT: Addr := 0x8E
  const INT_PROX_READY: Byte := 0x80
  const INT_ALS_READY: Byte := 0x40

  // The configuration bytes each variant writes when it is constructed.
  const VCNL4000_PROXIMITY_ADJUST_VALUE: Byte := 0x81
  const VCNL4010_INT_CONTROL_VALUE: Byte := 0x08
}
