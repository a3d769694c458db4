/** What the driver's bus behaviour guarantees: the polling loop, the order
    of the transfers of a read, and the effect of a read on the registers. */
module VCNL40xxProperties {
  import opened Registers
  import opened I2C
  import opened VCNL40xx

  /** The number of writes to `reg` in a trace. */
  function Writes(t: seq<Event>, reg: Addr): nat
  {
    if t == [] then 0
    else Writes(t[..|t| - 1], reg) + if t[|t| - 1].Write? && t[|t| - 1].reg == reg then 1 else 0
  }

  // ---------------------------------------------------------------------
  // The polling loop

  /** From any deadline check on: the poll returns only on a read showing a
      ready bit, and that read is the first ready one; it fails only when
      the deadline is reached, having read once per elapsed millisecond. */
  lemma {:induction false} PollFrom(status: nat -> Byte, base: nat, ready: Byte, timeout: int, elapsed: nat)
    ensures var p := Poll(status, base, ready, timeout, elapsed);
      && elapsed <= p.polls
      && (p.ready ==> elapsed < p.polls <= timeout && ReadyAt(status, base + p.polls - 1, ready))
      && (!p.ready ==> p.polls == if elapsed < timeout then timeout else elapsed)
      && forall k :: base + elapsed <= k < base + Slept(p) ==> !ReadyAt(status, k, ready)
    decreases timeout - elapsed
  {
    if elapsed < timeout && !ReadyAt(status, base + elapsed, ready) {
      PollFrom(status, base, ready, timeout, elapsed + 1);
    }
  }

  /** `_wait_response` returns normally only right after a status read that
      shows one of the requested ready bits, and no earlier read showed one. */
  lemma PollReturnsOnlyWhenReady(status: nat -> Byte, base: nat, ready: Byte, timeout: int)
    ensures var p := Poll(status, base, ready, timeout, 0);
      p.ready ==>
        && 1 <= p.polls <= timeout
        && ReadyAt(status, base + p.polls - 1, ready)
        && forall k :: base <= k < base + p.polls - 1 ==> !ReadyAt(status, k, ready)
  {
    PollFrom(status, base, ready, timeout, 0);
  }

  /** `_wait_response` raises exactly when none of the status reads the
      deadline allows shows a ready bit; it then has read once per
      millisecond of the timeout. */
  lemma PollTimesOutIffNeverReady(status: nat -> Byte, base: nat, ready: Byte, timeout: int)
    ensures var p := Poll(status, base, ready, timeout, 0);
      && (!p.ready <==> forall k :: base <= k < base + timeout ==> !ReadyAt(status, k, ready))
      && (!p.ready ==> p.polls == if timeout < 0 then 0 else timeout)
  {
    PollFrom(status, base, ready, timeout, 0);
  }

  /** The deadline is checked before every read: with no time left the poll
      fails having read nothing, and it never reads more often than the
      timeout has milliseconds. */
  lemma PollBounded(status: nat -> Byte, base: nat, ready: Byte, timeout: int)
    ensures var p := Poll(status, base, ready, timeout, 0);
      && p.polls <= (if timeout < 0 then 0 else timeout)
      && (timeout <= 0 ==> p == Polled(0, false))
  {
    PollFrom(status, base, ready, timeout, 0);
  }

  /** Polling only reads: the register file is left as it was. */
  lemma {:induction false} PollingLeavesRegisters(regs: RegisterFile, n: nat)
    ensures Replay(regs, StatusPolls(n)) == regs
  {
    if n > 0 {
      assert StatusPolls(n)[..n - 1] == StatusPolls(n - 1);
      PollingLeavesRegisters(regs, n - 1);
    }
  }

  /** Polling never writes, to any register. */
  lemma {:induction false} PollingWritesNothing(n: nat, reg: Addr)
    ensures Writes(StatusPolls(n), reg) == 0
  {
    if n > 0 {
      assert StatusPolls(n)[..n - 1] == StatusPolls(n - 1);
      PollingWritesNothing(n - 1, reg);
    }
  }

  lemma {:induction false} WritesAppend(t: seq<Event>, u: seq<Event>, reg: Addr)
    ensures Writes(t + u, reg) == Writes(t, reg) + Writes(u, reg)
    decreases |u|
  {
    if u == [] {
      assert t + u == t;
    } else {
      assert (t + u)[..|t + u| - 1] == t + u[..|u| - 1];
      WritesAppend(t, u[..|u| - 1], reg);
    }
  }

  // ---------------------------------------------------------------------
  // The interrupt-status mask of the VCNL4010

  /** A status is ready for a mask of several bits as soon as it is ready
      for one of them: not all requested bits need be set. */
  lemma ReadyOnAnyBit(status: Byte, a: Byte, b: Byte)
    ensures IsReady(status, a | b) <==> IsReady(status, a) || IsReady(status, b)
  {
  }

  /** Clearing a bit that is already clear changes nothing. */
  lemma ClearBitIdempotent(status: Byte, bit: Byte)
    ensures ClearBit(ClearBit(status, bit), bit) == ClearBit(status, bit)
  {
  }

  // ---------------------------------------------------------------------
  // The transfers of one read

  /** The shared sequence writes the command register once and no other. */
  lemma MeasureWrites(m: Measurement, p: PollResult, reg: Addr)
    ensures Writes(MeasureTrace(m, p), reg) == if reg == COMMAND then 1 else 0
  {
    var command := [Write(COMMAND, m.Command())];
    var polls := StatusPolls(p.polls);
    var data: seq<Event> := if p.ready then [ReadWord(m.DataRegister())] else [];
    assert MeasureTrace(m, p) == command + polls + data;
    WritesAppend(command + polls, data, reg);
    WritesAppend(command, polls, reg);
    PollingWritesNothing(p.polls, reg);
    assert command[..0] == [];
    if p.ready {
      assert data[..0] == [];
    }
  }

  /** The VCNL4010's pre-read transfers write the interrupt-status register
      once and no other; the VCNL4000 has none. */
  lemma PreReadWrites(v: Variant, m: Measurement, intStat: Byte, reg: Addr)
    ensures Writes(PreRead(v, m, intStat), reg) == if v == VCNL4010 && reg == INT_STAT then 1 else 0
  {
    if v == VCNL4010 {
      var pre := PreRead(v, m, intStat);
      assert pre[..1] == [Read(INT_STAT)];
      assert [Read(INT_STAT)][..0] == [];
      assert Writes(pre[..1], reg) == 0;
    }
  }

  /** The command of the measurement is written to the command register
      exactly once, right after the variant's pre-read transfers. */
  lemma CommandWrittenOnce(v: Variant, m: Measurement, intStat: Byte, p: PollResult)
    ensures var t := ReadTrace(v, m, intStat, p);
      && t[|PreRead(v, m, intStat)|] == Write(COMMAND, m.Command())
      && Writes(t, COMMAND) == 1
  {
    WritesAppend(PreRead(v, m, intStat), MeasureTrace(m, p), COMMAND);
    PreReadWrites(v, m, intStat, COMMAND);
    MeasureWrites(m, p, COMMAND);
  }

  /** VCNL4010: the interrupt-status register is read and written back once,
      with only the measurement's interrupt bit cleared, and every access to
      it comes before the command write. The VCNL4000 never touches it. */
  lemma ClearBeforeCommand(v: Variant, m: Measurement, intStat: Byte, p: PollResult)
    ensures var t := ReadTrace(v, m, intStat, p);
      && Writes(t, INT_STAT) == (if v == VCNL4010 then 1 else 0)
      && (v == VCNL4010 ==> t[0] == Read(INT_STAT) && t[1] == Write(INT_STAT, ClearBit(intStat, m.InterruptBit())) && t[2] == Write(COMMAND, m.Command()))
      && forall i :: 0 <= i < |t| && t[i].reg == INT_STAT ==> v == VCNL4010 && i < 2
  {
    var pre := PreRead(v, m, intStat);
    var t := ReadTrace(v, m, intStat, p);
    WritesAppend(pre, MeasureTrace(m, p), INT_STAT);
    PreReadWrites(v, m, intStat, INT_STAT);
    MeasureWrites(m, p, INT_STAT);
    forall i | |pre| <= i < |t|
      ensures t[i].reg != INT_STAT
    {
      assert t[i] == MeasureTrace(m, p)[i - |pre|];
    }
  }

  /** The data register is read at most once, as the very last transfer and
      right after a status read showing the ready bit; after a timeout it is
      never read. */
  lemma DataReadOnlyAfterReady(v: Variant, m: Measurement, intStat: Byte, status: nat -> Byte, base: nat, timeout: int)
    ensures var p := Poll(status, base, m.ReadyBit(), timeout, 0);
      var t := ReadTrace(v, m, intStat, p);
      && (forall i :: 0 <= i < |t| && t[i].ReadWord? ==>
            && p.ready && i == |t| - 1 && t[i] == ReadWord(m.DataRegister())
            && t[i - 1] == Read(COMMAND) && 1 <= p.polls && ReadyAt(status, base + p.polls - 1, m.ReadyBit()))
      && (p.ready <==> t[|t| - 1] == ReadWord(m.DataRegister()))
  {
    var p := Poll(status, base, m.ReadyBit(), timeout, 0);
    PollFrom(status, base, m.ReadyBit(), timeout, 0);
    var pre := PreRead(v, m, intStat);
    var t := ReadTrace(v, m, intStat, p);
    forall i | 0 <= i < |t| && t[i].ReadWord?
      ensures p.ready && i == |t| - 1 && t[i] == ReadWord(m.DataRegister())
      ensures t[i - 1] == Read(COMMAND) && 1 <= p.polls && ReadyAt(status, base + p.polls - 1, m.ReadyBit())
    {
      assert i >= |pre| + 1 + p.polls;
    }
  }

  /** Replaying the shared sequence only stores the command. */
  lemma ReplayMeasure(regs: RegisterFile, m: Measurement, p: PollResult)
    ensures Replay(regs, MeasureTrace(m, p)) == regs[COMMAND := m.Command()]
  {
    var command := [Write(COMMAND, m.Command())];
    var polls := StatusPolls(p.polls);
    var data: seq<Event> := if p.ready then [ReadWord(m.DataRegister())] else [];
    assert MeasureTrace(m, p) == command + polls + data;
    ReplayAppend(regs, command + polls, data);
    ReplayAppend(regs, command, polls);
    assert command[..0] == [];
    PollingLeavesRegisters(Replay(regs, command), p.polls);
    if p.ready {
      assert data[..0] == [];
    }
  }

  /** Replaying the VCNL4010's pre-read transfers clears the interrupt bit. */
  lemma ReplayPreRead(regs: RegisterFile, v: Variant, m: Measurement)
    ensures Replay(regs, PreRead(v, m, regs[INT_STAT])) ==
      if v == VCNL4010 then regs[INT_STAT := ClearBit(regs[INT_STAT], m.InterruptBit())] else regs
  {
    if v == VCNL4010 {
      var pre := PreRead(v, m, regs[INT_STAT]);
      assert pre[..1] == [Read(INT_STAT)];
      assert [Read(INT_STAT)][..0] == [];
      assert Replay(regs, pre[..1]) == regs;
    }
  }

  /** Replaying the trace of a read gives the register file the read leaves
      behind: every register as it was except the command register, which
      holds the command, and on the VCNL4010 the interrupt-status register,
      which has the measurement's interrupt bit cleared. */
  lemma ReadRegisters(v: Variant, m: Measurement, regs: RegisterFile, p: PollResult)
    ensures Replay(regs, ReadTrace(v, m, regs[INT_STAT], p)) == AfterRead(v, m, regs)
  {
    var pre := PreRead(v, m, regs[INT_STAT]);
    ReplayAppend(regs, pre, MeasureTrace(m, p));
    ReplayPreRead(regs, v, m);
    ReplayMeasure(Replay(regs, pre), m, p);
  }
}
