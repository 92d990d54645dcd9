/**
  The interrupt-driven JTAG UART driver in the form of its source: one object whose fields the
  interrupt routine, the one-second timeout and the read, write, close and ioctl calls update in
  place. Every store to shared state is recorded as one action of the step machine, and `Preempt`
  stands wherever an interrupt can be taken; so each call is proved to be a run of that machine, and
  what holds of every run holds at every point of every call.
 */
module UartDriver {
  import opened CircularBuffer
  import opened UartProtocol

  const EIO: int := 5
  const EWOULDBLOCK: int := 11
  const ENOTTY: int := 25

  class JtagUart {
    const rxBuf: array<Byte>
    const txBuf: array<Byte>
    var rxIn: nat
    var rxOut: nat
    var txIn: nat
    var txOut: nat
    // the RE and WE bits of irq_enable; every change is written through to the control register
    var re: bool
    var we: bool
    var hostInactive: nat
    var timeout: nat

    // the device: its receive FIFO and the room in its transmit FIFO
    var fifo: seq<Byte>
    var wspace: int

    // the run of the step machine that this object has gone through, and where it leads
    ghost const start: Sys
    ghost var log: seq<Action>
    ghost var model: Sys

    /** The fields hold what the step machine says. */
    ghost predicate Agrees()
      reads this, rxBuf, txBuf
    {
      && rxBuf[..] == model.rx.buf && rxIn == model.rx.inIx && rxOut == model.rx.outIx
      && txBuf[..] == model.tx.buf && txIn == model.tx.inIx && txOut == model.tx.outIx
      && re == model.rx.re && we == model.tx.we
      && fifo == model.rx.fifo && wspace == model.tx.wspace
      && hostInactive == model.host.inactive && timeout == model.host.timeout
    }

    ghost predicate Valid()
      reads this, rxBuf, txBuf
    {
      rxBuf != txBuf && Reached(start, log, model) && Agrees()
    }

    /** No call is in progress: the thread may call the driver. */
    ghost predicate Ready()
      reads this, rxBuf, txBuf
    {
      Valid() && model.isr.Off? && model.reader.RIdle? && model.writer.WIdle?
    }

    /** altera_avalon_jtag_uart_init; `alarmStarted` is whether the one-second alarm could be registered. */
    constructor (wspace0: nat, alarmStarted: bool)
      ensures Ready() && fresh(rxBuf) && fresh(txBuf) && log == []
      ensures timeout == if alarmStarted then DEFAULT_TIMEOUT else INT_MAX
    {
      var zeros := seq(LEN, _ => 0);
      rxBuf := new Byte[LEN](_ => 0);
      txBuf := new Byte[LEN](_ => 0);
      rxIn, rxOut, txIn, txOut := 0, 0, 0, 0;
      re, we := true, false;
      hostInactive := 0;
      timeout := if alarmStarted then DEFAULT_TIMEOUT else INT_MAX;
      fifo, wspace := [], wspace0;
      start := Sys(Rx(zeros, 0, 0, true, [], [], [], []), Tx(zeros, 0, 0, false, wspace0, [], []),
                   Host(0, if alarmStarted then DEFAULT_TIMEOUT else INT_MAX), RIdle, WIdle, Off);
      log := [];
      new;
      model := start;
      assert rxBuf[..] == zeros && txBuf[..] == zeros;
    }

    /** What host_inactive says: for how many seconds no host was seen, in the whole life of the driver. */
    lemma SecondsCounted()
      requires Valid()
      ensures hostInactive == Min(SilentSeconds(log), INT_MAX - 2)
    {
      SilenceIsCounted(start, log);
    }

    /** One step of the step machine, which the stores around it carry out. */
    ghost method Step(a: Action)
      requires Reached(start, log, model) && Enabled(model, a)
      modifies this`log, this`model
      ensures model == Apply(old(model), a) && log == old(log) + [a] && Reached(start, log, model)
    {
      ReachedStep(start, log, model, a);
      log := log + [a];
      model := Apply(model, a);
    }

    // -------------------------------------------------------------- host and device

    /** The host and the device act for a while: at most `budget` times from now on. */
    method Bus(budget: nat) returns (left: nat)
      requires Valid()
      modifies this`fifo, this`wspace, this`log, this`model
      ensures Valid() && left <= budget && (left == budget ==> model == old(model))
      ensures model == old(model).(rx := model.rx, tx := model.tx)
      ensures model.rx == old(model).rx.(fifo := model.rx.fifo, arrived := model.rx.arrived)
      ensures model.tx == old(model).tx.(wspace := model.tx.wspace)
      ensures IsrRank(old(model)) <= IsrRank(model)
      ensures old(log) <= log
    {
      hide Reached;
      left := budget;
      var more: bool := *;
      while more && left > 0
        invariant Valid() && left <= budget && (left == budget ==> model == old(model))
        invariant model == old(model).(rx := model.rx, tx := model.tx)
        invariant model.rx == old(model).rx.(fifo := model.rx.fifo, arrived := model.rx.arrived)
        invariant model.tx == old(model).tx.(wspace := model.tx.wspace)
        invariant IsrRank(old(model)) <= IsrRank(model)
        invariant old(log) <= log
        decreases left
      {
        left := left - 1;
        var byteComes: bool := *;
        if byteComes {
          var b: Byte := *;
          fifo := fifo + [b];
          HostAddsWork(model, Arrive(b));
          Step(Arrive(b));
        } else {
          var n: nat := *;
          wspace := wspace + n;
          HostAddsWork(model, HostTakes(n));
          Step(HostTakes(n));
        }
        more := *;
      }
    }

    // -------------------------------------------------------------- interrupt level

    /** altera_avalon_jtag_uart_irq. The host and the device may go on acting while it runs, `budget`
        times in all; however large that is, the routine ends, and with budget 0 it ends on its own. */
    method Irq(budget: nat)
      requires Valid() && model.isr.Off?
      modifies this, rxBuf
      ensures Valid() && model.isr.Off? && ThreadFrozen(old(model), model)
      ensures old(log) <= log
    {
      hide Reached;
      var left := budget;
      Step(IsrEnter);
      ReachedInv(start, log, model);
      while true
        invariant Valid() && model.isr.Top? && 0 <= IsrRank(model) && ThreadFrozen(old(model), model)
        invariant old(log) <= log
        decreases left, IsrRank(model)
      {
        left := Bus(left);
        var ri, wi, space := ReadControl();
        if !ri && !wi {
          break;
        }
        if ri {
          left := IrqReceive(left, wi, space);
        }
        if wi {
          left := IrqTransmit(left, space);
        }
      }
    }

    /** Reading the control register: RI and WI may be raised only with their cause present. */
    method ReadControl() returns (ri: bool, wi: bool, space: nat)
      requires Valid() && model.isr.Top?
      modifies this`log, this`model
      ensures Valid() && ThreadFrozen(old(model), model)
      ensures old(log) <= log
      ensures model.isr == if ri then InRx(true, wi, space) else if wi then InTx(space) else Off
      ensures !model.isr.Off? ==> 0 <= IsrRank(model) < IsrRank(old(model))
    {
      hide Reached;
      ReachedInv(start, log, model);
      var seen: bool := *;
      ri := seen && re && fifo != [];
      seen := *;
      wi := seen && we && wspace > 0;
      space := if wspace > 0 then wspace else 0;
      IsrStepUsesRank(model, IsrControl(ri, wi));
      Step(IsrControl(ri, wi));
    }

    /** The read half of one pass of the interrupt routine. */
    method IrqReceive(budget: nat, ghost wi: bool, ghost space: nat) returns (left: nat)
      requires Valid() && model.isr == InRx(true, wi, space)
      modifies this, rxBuf
      ensures Valid() && ThreadFrozen(old(model), model) && left <= budget
      ensures old(log) <= log
      ensures model.isr == if wi then InTx(space) else Top
      ensures 0 <= IsrRank(model) && (left == budget ==> IsrRank(model) < IsrRank(old(model)))
    {
      hide Reached;
      ReachedInv(start, log, model);
      left := budget;
      var avail := true;
      var more := true;
      while more
        invariant Valid() && ThreadFrozen(old(model), model) && left <= budget
        invariant old(log) <= log
        invariant model.isr == if more then InRx(avail, wi, space) else EndRx(avail, wi, space)
        invariant 0 <= IsrRank(model) && (left == budget ==> IsrRank(model) <= IsrRank(old(model)))
        decreases left, IsrRank(model)
      {
        left := Bus(left);
        avail, more := ReceiveOne(avail, wi, space);
      }
      ReceiveEnd(avail, wi, space);
    }

    /** Behind the receive loop: interrupts off when data had to be left in the device. */
    method ReceiveEnd(avail: bool, ghost wi: bool, ghost space: nat)
      requires Valid() && model.isr == EndRx(avail, wi, space)
      modifies this`re, this`log, this`model
      ensures Valid() && ThreadFrozen(old(model), model)
      ensures old(log) <= log
      ensures model.isr == if wi then InTx(space) else Top
      ensures 0 <= IsrRank(model) < IsrRank(old(model))
    {
      hide Reached;
      ReachedInv(start, log, model);
      IsrStepUsesRank(model, IsrRxEnd);
      if avail {
        re := false;
      }
      Step(IsrRxEnd);
    }

    /** One round of the receive loop: `more` is false where the source breaks out of it. */
    method ReceiveOne(avail0: bool, ghost wi: bool, ghost space: nat) returns (avail: bool, more: bool)
      requires Valid() && model.isr == InRx(avail0, wi, space)
      modifies this`rxIn, this`fifo, this`log, this`model, rxBuf
      ensures Valid() && ThreadFrozen(old(model), model)
      ensures old(log) <= log
      ensures model.isr == if more then InRx(avail, wi, space) else EndRx(avail, wi, space)
      ensures 0 <= IsrRank(model) < IsrRank(old(model))
    {
      hide Reached;
      ReachedInv(start, log, model);
      IsrStepUsesRank(model, IsrRxStep);
      avail, more := avail0, false;
      var next := Advance(rxIn, 1);
      if next != rxOut {
        avail := false;              // RVALID clear means RAVAIL clear
        if fifo != [] {
          var data := fifo[0];
          fifo := fifo[1..];
          avail, more := fifo != [], true;
          rxBuf[rxIn] := data;
          rxIn := Advance(rxIn, 1);
        }
      }
      Step(IsrRxStep);
      assert rxBuf[..] == model.rx.buf;
    }

    /** The write half of one pass of the interrupt routine: never more bytes than the space it read. */
    method IrqTransmit(budget: nat, space0: nat) returns (left: nat)
      requires Valid() && model.isr == InTx(space0)
      modifies this
      ensures Valid() && ThreadFrozen(old(model), model) && left <= budget
      ensures old(log) <= log
      ensures model.isr == Top
      ensures 0 <= IsrRank(model) && (left == budget ==> IsrRank(model) < IsrRank(old(model)))
      ensures |model.tx.sent| <= |old(model).tx.sent| + space0
    {
      hide Reached;
      ReachedInv(start, log, model);
      left := budget;
      var space := space0;
      while space > 0 && txOut != txIn
        invariant Valid() && ThreadFrozen(old(model), model) && left <= budget
        invariant old(log) <= log
        invariant model.isr == InTx(space)
        invariant |model.tx.sent| + space == |old(model).tx.sent| + space0
        invariant 0 <= IsrRank(model) && (left == budget ==> IsrRank(model) <= IsrRank(old(model)))
        decreases space
      {
        left := Bus(left);
        space := TransmitOne(space);
      }
      TransmitEnd(space);
    }

    /** One byte to the data register. */
    method TransmitOne(space0: nat) returns (space: nat)
      requires Valid() && model.isr == InTx(space0) && space0 > 0 && txOut != txIn
      modifies this`txOut, this`wspace, this`log, this`model
      ensures Valid() && ThreadFrozen(old(model), model)
      ensures old(log) <= log
      ensures space == space0 - 1 && model.isr == InTx(space)
      ensures |model.tx.sent| == |old(model).tx.sent| + 1
      ensures 0 <= IsrRank(model) < IsrRank(old(model))
    {
      hide Reached;
      ReachedInv(start, log, model);
      IsrStepUsesRank(model, IsrTxStep);
      Step(IsrTxStep);
      var data := txBuf[txOut];
      wspace := wspace - 1;          // the device takes `data`
      assert model.tx.sent[|model.tx.sent| - 1] == data;
      txOut := Advance(txOut, 1);
      space := space0 - 1;
    }

    /** Behind the transmit loop: interrupts off when room is left over. */
    method TransmitEnd(space: nat)
      requires Valid() && model.isr == InTx(space) && (space == 0 || txOut == txIn)
      modifies this`we, this`log, this`model
      ensures Valid() && ThreadFrozen(old(model), model) && model.isr == Top
      ensures old(log) <= log
      ensures 0 <= IsrRank(model) < IsrRank(old(model)) && model.tx.sent == old(model).tx.sent
    {
      hide Reached;
      ReachedInv(start, log, model);
      IsrStepUsesRank(model, IsrTxStep);
      Step(IsrTxStep);
      ReachedInv(start, log, model);
      IsrStepUsesRank(model, IsrTxEnd);
      if space > 0 {
        we := false;
      }
      Step(IsrTxEnd);
    }

    /** altera_avalon_jtag_uart_timeout; `ac` is the AC bit of the control register. */
    method SecondElapsed(ac: bool)
      requires Valid() && model.isr.Off?
      modifies this`hostInactive, this`log, this`model
      ensures Valid() && model == old(model).(host := AfterSecond(old(model).host, ac)) && old(log) <= log
      ensures hostInactive == if ac then 0 else Min(old(hostInactive) + 1, INT_MAX - 2)
    {
      hide Reached;
      IndicesInBounds(start, log, model);
      if ac {
        hostInactive := 0;
      } else if hostInactive < INT_MAX - 2 {
        hostInactive := hostInactive + 1;
      }
      Step(SecondTick(ac));
    }

    /** Everything that can happen between two steps of the thread. */
    method Preempt()
      requires Valid() && model.isr.Off?
      modifies this, rxBuf
      ensures Valid() && model.isr.Off? && ThreadFrozen(old(model), model)
      ensures old(log) <= log
    {
      hide Reached;
      var steps: nat := *;
      while steps > 0
        invariant Valid() && model.isr.Off? && ThreadFrozen(old(model), model)
        invariant old(log) <= log
      {
        var what: nat := *;
        if what == 0 {
          var budget: nat := *;
          Irq(budget);
        } else if what == 1 {
          var ac: bool := *;
          SecondElapsed(ac);
        } else {
          var _ := Bus(what);
        }
        steps := steps - 1;
      }
    }

    // -------------------------------------------------------------- read

    /** The memcpy of read: `n` bytes to `buffer` from place `at` on, one at a time. */
    method CopyOut(buffer: array<Byte>, at: nat, out: nat, n: nat)
      requires Valid() && model.isr.Off? && buffer != rxBuf && buffer != txBuf
      requires model.reader.RCopy? && model.reader.copied == [] && model.reader.seenOut == out && model.reader.n == n
      requires at + n <= buffer.Length
      modifies this, rxBuf, buffer
      ensures Valid() && model.isr.Off? && ReadFrame(old(model), model)
      ensures old(log) <= log
      ensures model.reader == old(model).reader.(copied := buffer[at..at + n])
      ensures model.rx.delivered == old(model).rx.delivered && |model.reader.copied| == n
      ensures forall i :: 0 <= i < buffer.Length && !(at <= i < at + n) ==> buffer[i] == old(buffer[i])
    {
      hide Reached;
      var k := 0;
      while k < n
        invariant k <= n && Valid() && model.isr.Off? && ReadFrame(old(model), model)
        invariant old(log) <= log
        invariant model.reader == old(model).reader.(copied := buffer[at..at + k])
        invariant model.rx.delivered == old(model).rx.delivered
        invariant forall i :: 0 <= i < buffer.Length && !(at <= i < at + n) ==> buffer[i] == old(buffer[i])
      {
        ghost var was := buffer[at..at + k];
        var b := LoadByte(out, k);
        buffer[at + k] := b;
        assert buffer[at..at + k + 1] == was + [b];
        k := k + 1;
      }
    }

    /** One load of the memcpy. */
    method LoadByte(out: nat, k: nat) returns (b: Byte)
      requires Valid() && model.isr.Off? && model.reader.RCopy?
      requires |model.reader.copied| == k < model.reader.n && model.reader.seenOut == out
      modifies this, rxBuf
      ensures Valid() && model.isr.Off? && ReadFrame(old(model), model)
      ensures old(log) <= log
      ensures model.reader == old(model).reader.(copied := old(model).reader.copied + [b])
      ensures model.rx.delivered == old(model).rx.delivered
    {
      hide Reached;
      Preempt();
      CopyInBounds(start, log, model);
      b := rxBuf[out + k];
      Step(ReadByte);
    }

    /** The store of the new read index behind the memcpy. */
    method PublishRead(out: nat, n: nat)
      requires Valid() && model.isr.Off? && model.reader.RCopy?
      requires |model.reader.copied| == model.reader.n == n && model.reader.seenOut == out
      modifies this, rxBuf
      ensures Valid() && model.isr.Off? && ReadFrame(old(model), model)
      ensures old(log) <= log
      ensures model.reader == RTop(old(model).reader.got + n)
      ensures model.rx.delivered == old(model).rx.delivered + old(model).reader.copied
    {
      hide Reached;
      Preempt();
      rxOut := Advance(out, n);
      Step(ReadPublish);
    }

    /** The snapshot of the indices in read, and the number of bytes it allows to copy. */
    method LookForData(ghost at: nat, space: nat) returns (n: nat, seenIn: nat, out: nat)
      requires Valid() && model.isr.Off? && model.reader == RTop(at) && space > 0
      modifies this, rxBuf
      ensures Valid() && model.isr.Off? && ReadFrame(old(model), model) && n <= space
      ensures old(log) <= log
      ensures model.reader == if n == 0 then REmpty(seenIn, at) else RCopy(seenIn, out, n, [], at)
      ensures model.rx.delivered == old(model).rx.delivered && model.rx.outIx == old(model).rx.outIx
      ensures old(rxIn) != old(rxOut) ==> n > 0
      ensures n == 0 ==> |old(model).rx.drained| <= |model.rx.delivered|
    {
      hide Reached;
      Preempt();
      IndicesInBounds(start, log, model);
      if old(rxIn) != old(rxOut) {
        WaitingStays(start, old(log), old(model), log, model);
      }
      seenIn, out := rxIn, rxOut;
      if seenIn == out {
        NothingWaiting(start, log, model);
      }
      if seenIn >= out {
        n := seenIn - out;
      } else {
        n := LEN - out;
      }
      Step(ReadLook(space));
      if n > space {
        n := space;
      }
    }

    /** One round of the do loop of read: a snapshot of the indices, the memcpy it allows, and the new
        read index. No bytes are moved exactly when the snapshot shows an empty buffer. */
    method TakeRun(buffer: array<Byte>, at: nat, space: nat) returns (n: nat, seenIn: nat)
      requires Valid() && model.isr.Off? && buffer != rxBuf && buffer != txBuf
      requires model.reader == RTop(at) && 0 < space && at + space <= buffer.Length
      modifies this, rxBuf, buffer
      ensures Valid() && model.isr.Off? && ReadFrame(old(model), model) && n <= space
      ensures old(log) <= log
      ensures model.reader == if n == 0 then REmpty(seenIn, at) else RTop(at + n)
      ensures model.rx.delivered == old(model).rx.delivered + buffer[at..at + n]
      ensures forall i :: 0 <= i < buffer.Length && !(at <= i < at + n) ==> buffer[i] == old(buffer[i])
      ensures old(rxIn) != old(rxOut) ==> n > 0
      ensures n == 0 ==> model.rx.outIx == old(model).rx.outIx && |old(model).rx.drained| <= |model.rx.delivered|
    {
      hide Reached;
      var out;
      n, seenIn, out := LookForData(at, space);
      if n == 0 {
        return;
      }
      CopyOut(buffer, at, out, n);
      PublishRead(out, n);
    }

    /** Takes what is in the buffer, at most `space0` bytes: the do loop of read. It stops short only when it has
        taken everything that was stored when it began. */
    method TakeAvailable(buffer: array<Byte>, space0: nat) returns (got: nat, seenIn: nat)
      requires Valid() && model.isr.Off? && buffer != rxBuf && buffer != txBuf
      requires model.reader == RTop(0) && 0 < space0 <= buffer.Length
      modifies this, rxBuf, buffer
      ensures Valid() && model.isr.Off? && ReadFrame(old(model), model) && got <= space0
      ensures old(log) <= log
      ensures model.reader == RTop(got) || model.reader == REmpty(seenIn, got)
      ensures got < space0 ==> model.reader == REmpty(seenIn, got)
      ensures got < space0 ==> |old(model).rx.drained| <= |model.rx.delivered|
      ensures model.rx.delivered == old(model).rx.delivered + buffer[..got]
      ensures forall i :: got <= i < buffer.Length ==> buffer[i] == old(buffer[i])
      ensures old(rxIn) != old(rxOut) ==> got > 0
      ensures got == 0 ==> model.rx.outIx == old(model).rx.outIx
    {
      hide Reached;
      var n;
      n, seenIn := TakeRun(buffer, 0, space0);
      got := n;
      while n > 0 && got < space0
        invariant Valid() && model.isr.Off? && ReadFrame(old(model), model) && got <= space0
        invariant old(log) <= log
        invariant model.reader == if n > 0 then RTop(got) else REmpty(seenIn, got)
        invariant model.rx.delivered == old(model).rx.delivered + buffer[..got]
        invariant forall i :: got <= i < buffer.Length ==> buffer[i] == old(buffer[i])
        invariant if n > 0 then got > 0 else |old(model).rx.drained| <= |model.rx.delivered|
        invariant got == 0 ==> old(rxIn) == old(rxOut) && model.rx.outIx == old(model).rx.outIx
        decreases space0 - got, n
      {
        ghost var before := buffer[..got];
        n, seenIn := TakeRun(buffer, got, space0 - got);
        assert buffer[..got + n] == before + buffer[got..got + n];
        got := got + n;
      }
    }

    /** The spin of read: until an interrupt has stored a byte, or the host seems gone, or for `patience`
        looks. */
    method SpinForData(seenIn: nat, patience: nat) returns (ended: bool)
      requires Valid() && model.isr.Off? && model.reader == REmpty(seenIn, 0)
      modifies this, rxBuf
      ensures Valid() && model.isr.Off? && ReadFrame(old(model), model)
      ensures old(log) <= log
      ensures model.reader == REmpty(seenIn, 0)
      ensures model.rx.delivered == old(model).rx.delivered && model.rx.outIx == old(model).rx.outIx
      ensures ended <==> seenIn != rxIn || hostInactive >= timeout
    {
      hide Reached;
      var spins := patience;
      Preempt();
      while seenIn == rxIn && hostInactive < timeout && spins > 0
        invariant Valid() && model.isr.Off? && ReadFrame(old(model), model)
        invariant old(log) <= log
        invariant model.reader == REmpty(seenIn, 0)
        invariant model.rx.delivered == old(model).rx.delivered && model.rx.outIx == old(model).rx.outIx
        decreases spins
      {
        Preempt();
        spins := spins - 1;
      }
      ended := seenIn != rxIn || hostInactive >= timeout;
    }

    /** What read does when it found nothing and may block: wait, then look again unless the host is gone. */
    method AwaitData(seenIn: nat, patience: nat) returns (waiting: bool, again: bool)
      requires Valid() && model.isr.Off? && model.reader == REmpty(seenIn, 0)
      modifies this, rxBuf
      ensures Valid() && model.isr.Off? && ReadFrame(old(model), model)
      ensures old(log) <= log
      ensures model.reader == if again then RTop(0) else REmpty(seenIn, 0)
      ensures model.rx.delivered == old(model).rx.delivered && model.rx.outIx == old(model).rx.outIx
      ensures again ==> !waiting && rxIn != rxOut
      ensures waiting ==> re && rxIn == seenIn && hostInactive < timeout
      ensures !waiting && !again ==> timeout < INT_MAX - 1 && FoundSilent(old(log), log, timeout)
    {
      hide Reached;
      again := false;
      var ended := SpinForData(seenIn, patience);
      waiting := !ended;
      EmptySnapshot(start, log, model);
      if waiting {
        return;
      }
      IndicesInBounds(start, log, model);
      ghost var logAtEnd, modelAtEnd := log, model;
      Preempt();
      if modelAtEnd.host.inactive >= modelAtEnd.host.timeout {
        SilentNow(start, old(log), logAtEnd, modelAtEnd, log);
      }
      if modelAtEnd.rx.inIx != modelAtEnd.rx.outIx {
        WaitingStays(start, logAtEnd, modelAtEnd, log, model);
      }
      if seenIn != rxIn {
        again := true;
        Step(ReadRetry);
      }
    }

    /** Leaving read: with bytes taken there is room again, so receive interrupts go on. */
    method ReadLeave(ptr: nat)
      requires Valid() && model.isr.Off? && (model.reader.RTop? || model.reader.REmpty?) && model.reader.got == ptr
      modifies this, rxBuf
      ensures Valid() && model.isr.Off? && model.reader == RIdle && ReadFrame(old(model), model)
      ensures old(log) <= log
      ensures model.rx.delivered == old(model).rx.delivered && (ptr > 0 ==> re)
    {
      hide Reached;
      Preempt();
      if ptr != 0 {
        re := true;
      }
      Step(ReadFinish);
    }

    /** altera_avalon_jtag_uart_read. A blocking call with nothing to read spins; after `patience` looks
        the model stops watching and says so in `waiting`. Otherwise the call returned `rc`. */
    method Read(buffer: array<Byte>, space: int, nonblock: bool, patience: nat) returns (rc: int, waiting: bool)
      requires Ready() && buffer != rxBuf && buffer != txBuf && space <= buffer.Length
      modifies this, rxBuf, buffer
      ensures Valid() && model.isr.Off? && ReadFrame(old(model), model)
      ensures old(log) <= log
      ensures !waiting ==> Ready()
      // a positive result is the number of bytes handed over, and they are the next ones in order
      ensures rc > 0 ==> rc <= space && model.rx.delivered == old(model).rx.delivered + buffer[..rc]
      ensures rc > 0 ==> re && forall i :: rc <= i < buffer.Length ==> buffer[i] == old(buffer[i])
      // otherwise nothing was handed over
      ensures rc <= 0 ==> model.rx.delivered == old(model).rx.delivered
      ensures rc <= 0 ==> forall i :: 0 <= i < buffer.Length ==> buffer[i] == old(buffer[i])
      ensures rc <= 0 ==> rc == if nonblock then -EWOULDBLOCK else -EIO
      // data that is there is never refused, and all of it is handed over if there is space
      ensures space > 0 && old(rxIn) != old(rxOut) ==> rc > 0
      ensures 0 < rc < space ==> |old(model).rx.drained| <= |model.rx.delivered|
      // only a blocking call waits, with the buffer empty, receive interrupts on and the host not given up
      ensures waiting ==> rc <= 0 && !nonblock && space > 0
      ensures waiting ==> model.reader.REmpty? && re && rxIn == rxOut && hostInactive < timeout
      // a blocking call gives up only if meanwhile the host was silent for the timeout, which can be too long
      ensures rc <= 0 && !waiting && !nonblock && space > 0 ==>
        old(timeout) < INT_MAX - 1 && FoundSilent(old(log), log, old(timeout))
    {
      hide Reached, FoundSilent;
      Step(ReadBegin);
      var ptr := 0;
      waiting := false;
      while space > 0
        invariant Valid() && model.isr.Off? && ReadFrame(old(model), model)
        invariant old(log) <= log
        invariant ptr == 0 && model.reader == RTop(0) && !waiting
        invariant model.rx.delivered == old(model).rx.delivered && model.rx.outIx == old(model).rx.outIx
        invariant forall i :: 0 <= i < buffer.Length ==> buffer[i] == old(buffer[i])
        decreases if rxIn == rxOut then 1 else 0
      {
        if old(rxIn) != old(rxOut) {
          WaitingStays(start, old(log), old(model), log, model);
        }
        var seenIn;
        ptr, seenIn := TakeAvailable(buffer, space);
        if ptr != 0 {
          break;
        }
        if nonblock {
          break;
        }
        var again;
        ghost var logBefore := log;
        waiting, again := AwaitData(seenIn, patience);
        if waiting {
          EmptySnapshot(start, log, model);
          return -EIO, true;
        }
        if !again {
          SilentWithin(old(log), logBefore, log, log, timeout);
          break;
        }
      }
      ghost var logAtEnd := log;
      ReadLeave(ptr);
      if FoundSilent(old(log), logAtEnd, timeout) {
        SilentWithin(old(log), old(log), logAtEnd, log, timeout);
      }
      rc := if ptr != 0 then ptr else if nonblock then -EWOULDBLOCK else -EIO;
    }

    // -------------------------------------------------------------- write

    /** The memcpy of write: `n` bytes of the caller's data to the free slots from `at` on, one at a time. */
    method CopyIn(rest: seq<Byte>, at: nat, n: nat)
      requires Valid() && model.isr.Off?
      requires model.writer.WCopy? && model.writer.k == 0 && model.writer.n == n && model.writer.seenIn == at
      requires model.writer.rest == rest && n <= |rest|
      modifies this, rxBuf, txBuf
      ensures Valid() && model.isr.Off? && WriteFrame(old(model), model)
      ensures old(log) <= log
      ensures model.writer == old(model).writer.(k := n)
      ensures model.tx.inIx == old(model).tx.inIx && model.tx.accepted == old(model).tx.accepted
    {
      hide Reached;
      var k := 0;
      while k < n
        invariant k <= n && Valid() && model.isr.Off? && WriteFrame(old(model), model)
        invariant old(log) <= log
        invariant model.writer == old(model).writer.(k := k)
        invariant model.tx.inIx == old(model).tx.inIx && model.tx.accepted == old(model).tx.accepted
      {
        Preempt();
        CopyInBounds(start, log, model);
        txBuf[at + k] := rest[k];
        Step(WriteByte);
        assert txBuf[..] == model.tx.buf;
        k := k + 1;
      }
    }

    /** The store of the new write index behind the memcpy. */
    method PublishWrite(rest: seq<Byte>, at: nat, n: nat)
      requires Valid() && model.isr.Off? && model.writer.WCopy?
      requires model.writer.k == model.writer.n == n <= |rest| && model.writer.seenIn == at && model.writer.rest == rest
      modifies this, rxBuf
      ensures Valid() && model.isr.Off? && WriteFrame(old(model), model)
      ensures old(log) <= log
      ensures model.writer == WTop(rest[n..], old(model).writer.owed + n)
      ensures model.tx.accepted == old(model).tx.accepted + rest[..n]
    {
      hide Reached;
      Preempt();
      txIn := Advance(at, n);
      Step(WritePublish);
    }

    /** One round of the inner loop of write: a snapshot of the indices, the memcpy it allows, and the
        new write index. No bytes are moved exactly when the snapshot shows a full buffer. */
    method FillRun(rest: seq<Byte>) returns (n: nat, seenOut: nat)
      requires Valid() && model.isr.Off? && model.writer.WTop? && model.writer.rest == rest && rest != []
      modifies this, rxBuf, txBuf
      ensures Valid() && model.isr.Off? && WriteFrame(old(model), model) && n <= |rest|
      ensures old(log) <= log
      ensures model.writer == if n == 0 then WStop(seenOut, rest, old(model).writer.owed)
                              else WTop(rest[n..], old(model).writer.owed + n)
      ensures model.tx.accepted == old(model).tx.accepted + rest[..n]
      ensures n == 0 ==> Room(old(model).tx) <= 0
    {
      hide Reached;
      Preempt();
      IndicesInBounds(start, log, model);
      var at := txIn;
      seenOut := txOut;
      n := 0;
      if at < seenOut {
        n := seenOut - 1 - at;
      } else if seenOut > 0 {
        n := LEN - at;
      } else {
        n := LEN - 1 - at;
      }
      Step(WriteLook);
      if n == 0 {
        FullSnapshot(start, log, model);
        return;
      }
      if n > |rest| {
        n := |rest|;
      }
      CopyIn(rest, at, n);
      PublishWrite(rest, at, n);
    }

    /** Puts as much as fits into the buffer: the inner loop of write. */
    method FillAvailable(rest0: seq<Byte>) returns (n: nat, seenOut: nat)
      requires Valid() && model.isr.Off? && model.writer.WTop? && model.writer.rest == rest0
      modifies this, rxBuf, txBuf
      ensures Valid() && model.isr.Off? && WriteFrame(old(model), model) && n <= |rest0|
      ensures old(log) <= log
      ensures model.writer == if n < |rest0| then WStop(seenOut, rest0[n..], old(model).writer.owed + n)
                              else WTop([], old(model).writer.owed + n)
      ensures model.tx.accepted == old(model).tx.accepted + rest0[..n]
      ensures n == |rest0| || n >= Room(old(model).tx)
    {
      hide Reached;
      var rest := rest0;
      n, seenOut := 0, 0;
      while rest != []
        invariant Valid() && model.isr.Off? && WriteFrame(old(model), model) && n <= |rest0|
        invariant old(log) <= log
        invariant rest == rest0[n..] && model.writer == WTop(rest, old(model).writer.owed + n)
        invariant model.tx.accepted == old(model).tx.accepted + rest0[..n]
        decreases |rest|
      {
        var m;
        m, seenOut := FillRun(rest);
        if m == 0 {
          break;
        }
        PrefixGrows(rest0, n, m);
        rest := rest[m..];
        n := n + m;
      }
    }

    lemma PrefixGrows(s: seq<Byte>, n: nat, m: nat)
      requires n + m <= |s|
      ensures s[..n + m] == s[..n] + s[n..][..m] && s[n + m..] == s[n..][m..]
    {
    }

    /** The kick of the interrupt routine, with interrupts off. */
    method EnableTransmit(ghost seenOut: nat)
      requires Valid() && model.isr.Off?
      requires (model.writer.WTop? && model.writer.rest == [])
            || (model.writer.WStop? && model.writer.seenOut == seenOut)
      modifies this, rxBuf
      ensures Valid() && model.isr.Off? && WriteFrame(old(model), model) && we
      ensures old(log) <= log
      ensures model.writer == WArmed(seenOut, old(model).writer.rest)
      ensures model.tx.accepted == old(model).tx.accepted
    {
      hide Reached;
      Preempt();
      we := true;
      Step(WriteEnable(seenOut));
    }

    /** The spin of write: until the interrupt routine has sent a byte, or the host seems gone, or for
        `patience` looks, of which `left` remain. */
    method SpinForRoom(seenOut: nat, patience: nat) returns (left: nat, ended: bool)
      requires Valid() && model.isr.Off? && model.writer.WArmed? && model.writer.seenOut == seenOut
      modifies this, rxBuf
      ensures Valid() && model.isr.Off? && WriteFrame(old(model), model) && left <= patience
      ensures old(log) <= log
      ensures model.writer == old(model).writer && model.tx.accepted == old(model).tx.accepted
      ensures ended <==> txOut != seenOut || hostInactive >= timeout
    {
      hide Reached;
      left := patience;
      Preempt();
      while txOut == seenOut && hostInactive < timeout && left > 0
        invariant Valid() && model.isr.Off? && WriteFrame(old(model), model) && left <= patience
        invariant old(log) <= log
        invariant model.writer == old(model).writer && model.tx.accepted == old(model).tx.accepted
        decreases left
      {
        Preempt();
        left := left - 1;
      }
      ended := txOut != seenOut || hostInactive >= timeout;
    }

    /** Everything write does when data is left over and it may block. */
    method AwaitRoom(seenOut: nat, patience: nat) returns (left: nat, waiting: bool, again: bool)
      requires Valid() && model.isr.Off? && model.writer.WArmed? && model.writer.seenOut == seenOut
      requires model.writer.rest != []
      modifies this, rxBuf
      ensures Valid() && model.isr.Off? && WriteFrame(old(model), model) && left <= patience
      ensures old(log) <= log
      ensures model.tx.accepted == old(model).tx.accepted
      ensures model.writer == if again then WTop(old(model).writer.rest, 0) else old(model).writer
      ensures again ==> left < patience && !waiting
      ensures waiting ==> hostInactive < timeout
      ensures !again && !waiting ==> hostInactive > 0
      ensures !again && !waiting ==> Room(model.tx) > 0 || FoundSilent(old(log), log, timeout)
    {
      hide Reached;
      again := false;
      var ended;
      left, ended := SpinForRoom(seenOut, patience);
      waiting := !ended;
      if waiting {
        return;
      }
      ghost var logAtEnd, modelAtEnd := log, model;
      if txOut != seenOut {
        RoomHasCome(start, log, model);
      }
      Preempt();
      if modelAtEnd.host.inactive >= modelAtEnd.host.timeout {
        SilentNow(start, old(log), logAtEnd, modelAtEnd, log);
      }
      if hostInactive == 0 {
        IndicesInBounds(start, log, model);
        if left == 0 {
          return left, true, false;
        }
        again := true;
        left := left - 1;
        Step(WriteRetry);
      }
    }

    /** The outer loop of write, which goes round at least once. */
    method WriteAll(data: seq<Byte>, nonblock: bool, patience: nat, ghost atCall: seq<Action>)
      returns (put: nat, waiting: bool)
      requires Valid() && model.isr.Off? && model.writer == WTop(data, 0) && atCall <= log
      modifies this, rxBuf, txBuf
      ensures Valid() && model.isr.Off? && WriteFrame(old(model), model) && put <= |data|
      ensures old(log) <= log
      ensures model.writer.WArmed? && model.writer.rest == data[put..]
      ensures model.tx.accepted == old(model).tx.accepted + data[..put]
      ensures put == |data| || put >= Room(old(model).tx)
      ensures waiting ==> !nonblock && put < |data| && hostInactive < timeout
      ensures !waiting && !nonblock && put < |data| ==> GaveUp(atCall)
    {
      hide Reached, GaveUp;
      put, waiting := 0, false;
      var spins := patience;
      var more := true;
      while more
        invariant Valid() && model.isr.Off? && WriteFrame(old(model), model) && put <= |data|
        invariant old(log) <= log
        invariant model.writer == if more then WTop(data[put..], 0) else model.writer
        invariant !more ==> model.writer.WArmed? && model.writer.rest == data[put..]
        invariant model.tx.accepted == old(model).tx.accepted + data[..put]
        invariant put == |data| || put >= Room(old(model).tx) || (more && put == 0 && model.tx == old(model).tx)
        invariant waiting ==> !nonblock && put < |data| && !more && hostInactive < timeout
        invariant !more && !waiting && !nonblock && put < |data| ==> GaveUp(atCall)
        decreases spins, more
      {
        var n, seenOut := FillAvailable(data[put..]);
        PrefixGrows(data, put, n);
        put := put + n;
        EnableTransmit(seenOut);
        more := put < |data| && !nonblock;
        if more {
          ghost var logBefore := log;
          spins, waiting, more := AwaitRoom(seenOut, spins);
          if !waiting && !more {
            GivesUp(atCall, logBefore);
          }
        }
      }
    }

    /** Why a blocked write returns: the host was not there at the last check, and either some room has come up or
        the host was silent for the timeout since the call began. */
    ghost predicate GaveUp(atCall: seq<Action>)
      reads this
    {
      hostInactive > 0 && (Room(model.tx) > 0 || FoundSilent(atCall, log, timeout))
    }

    lemma GivesUp(atCall: seq<Action>, before: seq<Action>)
      requires atCall <= before <= log && hostInactive > 0
      requires Room(model.tx) > 0 || FoundSilent(before, log, timeout)
      ensures GaveUp(atCall)
    {
      hide FoundSilent;
      if Room(model.tx) <= 0 {
        SilentWithin(atCall, before, log, log, timeout);
      }
    }

    /** Leaving write. */
    ghost method WriteLeave(atCall: seq<Action>)
      requires Valid() && model.isr.Off? && model.writer.WArmed? && atCall <= log
      modifies this`log, this`model
      ensures Valid() && model == old(model).(writer := WIdle) && old(log) <= log
      ensures old(GaveUp(atCall)) ==> GaveUp(atCall)
    {
      hide Reached, FoundSilent;
      Step(WriteFinish);
      if FoundSilent(atCall, old(log), timeout) {
        SilentWithin(atCall, atCall, old(log), log, timeout);
      }
    }

    /** altera_avalon_jtag_uart_write. `put` is how many bytes of `data` went into the buffer; as for read,
        after `patience` looks the model stops watching a blocked call and says so in `waiting`. */
    method Write(data: seq<Byte>, count: int, nonblock: bool, patience: nat)
      returns (rc: int, put: nat, waiting: bool)
      requires Ready() && count <= |data|
      modifies this, rxBuf, txBuf
      ensures Valid() && model.isr.Off? && WriteFrame(old(model), model)
      ensures old(log) <= log
      ensures !waiting ==> Ready()
      // exactly the first `put` bytes were accepted, and a positive result is that number
      ensures (put == 0 || put <= count) && model.tx.accepted == old(model).tx.accepted + data[..put]
      ensures rc == if put > 0 then put else if nonblock then -EWOULDBLOCK else -EIO
      // room that is there is used
      ensures count <= 0 || put == count || put >= Room(old(model).tx)
      // a blocking call comes back short only when the host was found inactive
      ensures !waiting && !nonblock && put < count ==> GaveUp(old(log))
      // only a blocking call waits, with data left over, behind the store that sets WE, the host not given up
      ensures waiting ==> !nonblock && put < count && model.writer.WArmed? && model.writer.rest == data[put..count]
      ensures waiting ==> hostInactive < timeout
    {
      hide Reached, GaveUp;
      var all := if count > 0 then data[..count] else [];
      Step(WriteBegin(all));
      put, waiting := WriteAll(all, nonblock, patience, old(log));
      assert all[..put] == data[..put];
      if !waiting {
        WriteLeave(old(log));
      }
      rc := if put != 0 then put else if nonblock then -EWOULDBLOCK else -EIO;
    }

    // -------------------------------------------------------------- close and ioctl

    /** altera_avalon_jtag_uart_close: waits until everything accepted has been sent. */
    method Close(nonblock: bool, patience: nat) returns (rc: int, waiting: bool)
      requires Ready()
      modifies this, rxBuf
      ensures Ready() && ThreadFrozen(old(model), model)
      ensures old(log) <= log
      ensures rc == 0
           || (nonblock && rc == -EWOULDBLOCK && model.tx.sent != model.tx.accepted && hostInactive < timeout)
      // success means drained, unless the host was given up
      ensures rc == 0 && !waiting ==> model.tx.sent == model.tx.accepted || timeout <= hostInactive
      ensures rc == 0 && !waiting && timeout >= INT_MAX - 1 ==> model.tx.sent == model.tx.accepted
      // while it waits, bytes are pending, transmit interrupts are on and the host is not given up
      ensures waiting ==> !nonblock && we && model.tx.sent != model.tx.accepted && hostInactive < timeout
    {
      hide Reached;
      var spins := patience;
      rc, waiting := 0, false;
      Preempt();
      while txOut != txIn && hostInactive < timeout
        invariant Ready() && ThreadFrozen(old(model), model) && rc == 0 && !waiting
        invariant old(log) <= log
        decreases spins
      {
        PendingSnapshot(start, log, model);
        if nonblock {
          return -EWOULDBLOCK, false;
        }
        if spins == 0 {
          return 0, true;
        }
        Preempt();
        spins := spins - 1;
      }
      PendingSnapshot(start, log, model);
      IndicesInBounds(start, log, model);
    }

    /** TIOCSTIMEOUT: refused once the timeout is INT_MAX, which never changes again. */
    method SetTimeoutRequest(requested: int) returns (rc: int)
      requires Ready()
      modifies this`timeout, this`log, this`model
      ensures Ready() && rc == if old(timeout) == INT_MAX then -ENOTTY else 0
      ensures old(timeout) == INT_MAX ==> timeout == INT_MAX
      ensures old(timeout) != INT_MAX ==>
        timeout != INT_MAX && (if 2 <= requested < INT_MAX then timeout == requested else timeout == INT_MAX - 1)
      ensures model == old(model).(host := Host(old(hostInactive), timeout))
    {
      rc := -ENOTTY;
      if timeout != INT_MAX {
        timeout := if 2 <= requested < INT_MAX then requested else INT_MAX - 1;
        rc := 0;
      }
      Step(SetTimeout(requested));
    }

    /** TIOCGCONNECTED: whether the host was seen within the timeout. */
    method GetConnected() returns (rc: int, connected: bool)
      requires Ready()
      ensures rc == if timeout == INT_MAX then -ENOTTY else 0
      ensures rc == 0 ==> (connected <==> hostInactive < timeout)
      ensures rc == 0 && timeout == INT_MAX - 1 ==> connected
    {
      rc, connected := -ENOTTY, false;
      IndicesInBounds(start, log, model);
      if timeout != INT_MAX {
        connected := hostInactive < timeout;
        rc := 0;
      }
    }
  }
}
