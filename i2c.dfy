/** The sensor as the driver sees it over I2C: a file of byte registers,
    written and read one transfer at a time. Every transfer is logged in a
    trace, so that the order of the driver's bus operations can be stated.
    The status bits that read back from the command register are produced
    by the sensor itself; they come from an oracle indexed by the number of
    status reads made so far. */
module I2C {
  import opened Registers

  /** The contents of all 256 registers, indexed by address. */
  type RegisterFile = s: seq<Byte> | |s| == 256 witness seq(256, _ => 0)

  /** One bus transfer: `write8`, `readU8` or `readU16BE`. */
  datatype Event =
    | Write(reg: Addr, value: Byte)
    | Read(reg: Addr)
    | ReadWord(reg: Addr)

  /** The effect of one transfer on the register file: only writes change it. */
  function Apply(regs: RegisterFile, e: Event): RegisterFile
  {
    match e
    case Write(reg, value) => regs[reg := value]
    case _ => regs
  }

  /** The register file after a sequence of transfers. */
  function Replay(regs: RegisterFile, t: seq<Event>): RegisterFile
  {
    if t == [] then regs else Apply(Replay(regs, t[..|t| - 1]), t[|t| - 1])
  }

  /** The unsigned 16-bit value `readU16BE` returns: `reg` holds the high
      byte and `reg + 1` the low byte. */
  function Word(regs: RegisterFile, reg: Addr): (w: int)
    requires reg < 255
    ensures 0 <= w < 0x1_0000
    ensures w / 256 == regs[reg] as int && w % 256 == regs[reg + 1] as int
  {
    regs[reg] as int * 256 + regs[reg + 1] as int
  }

  lemma {:induction false} ReplayAppend(regs: RegisterFile, t: seq<Event>, u: seq<Event>)
    ensures Replay(regs, t + u) == Replay(Replay(regs, t), u)
    decreases |u|
  {
    if u == [] {
      assert t + u == t;
    } else {
      var last := |u| - 1;
      assert (t + u)[..|t + u| - 1] == t + u[..last];
      assert (t + u)[|t + u| - 1] == u[last];
      ReplayAppend(regs, t, u[..last]);
    }
  }

  class Device {
    var regs: RegisterFile
    var trace: seq<Event>
    /** How many times the command register has been read. */
    var statusReads: nat
    /** The byte the sensor reports on its `k`-th status read. */
    const status: nat -> Byte

    constructor (initial: RegisterFile, status: nat -> Byte)
      ensures regs == initial && trace == [] && statusReads == 0
      ensures this.status == status
    {
      this.status := status;
      regs := initial;
      trace := [];
      statusReads := 0;
    }

    /** `write8(reg, value)`. */
    method Write8(reg: Addr, value: Byte)
      modifies this
      ensures regs == old(regs)[reg := value]
      ensures trace == old(trace) + [Write(reg, value)]
      ensures statusReads == old(statusReads)
    {
      regs := regs[reg := value];
      trace := trace + [Write(reg, value)];
    }

    /** `readU8(reg)`: the command register answers with the sensor's
        current status, every other register with its stored byte. */
    method ReadU8(reg: Addr) returns (v: Byte)
      modifies this
      ensures v == if reg == COMMAND then status(old(statusReads)) else regs[reg]
      ensures regs == old(regs)
      ensures trace == old(trace) + [Read(reg)]
      ensures statusReads == old(statusReads) + if reg == COMMAND then 1 else 0
    {
      if reg == COMMAND {
        v := status(statusReads);
        statusReads := statusReads + 1;
      } else {
        v := regs[reg];
      }
      trace := trace + [Read(reg)];
    }

    /** `readU16BE(reg)`. */
    method ReadU16BE(reg: Addr) returns (w: int)
      requires reg < 255
      modifies this
      ensures w == Word(regs, reg)
      ensures regs == old(regs)
      ensures trace == old(trace) + [ReadWord(reg)]
      ensures statusReads == old(statusReads)
    {
      w := Word(regs, reg);
      trace := trace + [ReadWord(reg)];
    }
  }
}
