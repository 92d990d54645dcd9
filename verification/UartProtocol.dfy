/**
  The interrupt-driven JTAG UART driver as a step machine. A thread reads and writes the two
  circular buffers; the interrupt routine may run between any two thread steps, and the host and
  the device may act between any two steps of anybody. Nothing is locked: the semaphores compile
  to nothing and only the two updates of the enable bits run with interrupts off.

  The state holds, besides the driver and device registers, the four byte histories the buffers
  are about: everything that arrived from the host, everything the interrupt routine took out of
  the device, everything handed to readers, and the same for the transmit side.
 */
module UartProtocol {
  import opened CircularBuffer

  const INT_MAX: nat := 0x7FFF_FFFF
  const DEFAULT_TIMEOUT: nat := 10

  datatype Rx = Rx(buf: seq<Byte>, inIx: nat, outIx: nat, re: bool, fifo: seq<Byte>,
                   arrived: seq<Byte>, drained: seq<Byte>, delivered: seq<Byte>)
  datatype Tx = Tx(buf: seq<Byte>, inIx: nat, outIx: nat, we: bool, wspace: int,
                   sent: seq<Byte>, accepted: seq<Byte>)
  datatype Host = Host(inactive: nat, timeout: nat)

  /** Where a read call stands; `got` counts the bytes this call has already taken. */
  datatype Reader =
    | RIdle
    | RTop(got: nat)                                               // about to look at the indices
    | RCopy(seenIn: nat, seenOut: nat, n: nat, copied: seq<Byte>, got: nat)  // inside memcpy
    | REmpty(seenIn: nat, got: nat)                                // saw an empty buffer

  /** Where a write call stands; `rest` is what it still has to put into the buffer, `owed` counts the
      bytes it has published since WE was last set. */
  datatype Writer =
    | WIdle
    | WTop(rest: seq<Byte>, owed: nat)
    | WCopy(seenIn: nat, seenOut: nat, n: nat, k: nat, rest: seq<Byte>, owed: nat)
    | WStop(seenOut: nat, rest: seq<Byte>, owed: nat)               // saw no free slot
    | WArmed(seenOut: nat, rest: seq<Byte>)                         // has set WE

  /** Where the interrupt routine stands. `avail` is "RAVAIL != 0" in its local `data`,
      `wi` and `space` are what it saw in the control register. */
  datatype Isr =
    | Off
    | Top
    | InRx(avail: bool, wi: bool, space: nat)
    | EndRx(avail: bool, wi: bool, space: nat)
    | InTx(space: nat)
    | EndTx(space: nat)

  datatype Sys = Sys(rx: Rx, tx: Tx, host: Host, reader: Reader, writer: Writer, isr: Isr)

  datatype Action =
    // host and device
    | Arrive(b: Byte)
    | HostTakes(n: nat)
    | SecondTick(ac: bool)
    // interrupt routine
    | IsrEnter
    | IsrControl(ri: bool, wi: bool)
    | IsrRxStep
    | IsrRxEnd
    | IsrTxStep
    | IsrTxEnd
    // reader
    | ReadBegin
    | ReadLook(space: nat)
    | ReadByte
    | ReadPublish
    | ReadRetry
    | ReadFinish
    // writer
    | WriteBegin(data: seq<Byte>)
    | WriteLook
    | WriteByte
    | WritePublish
    | WriteEnable(seenOut: nat)
    | WriteRetry
    | WriteFinish
    // ioctl
    | SetTimeout(requested: int)

  ghost predicate Initial(s: Sys) {
    && s.rx == Rx(s.rx.buf, 0, 0, true, [], [], [], [])
    && s.tx == Tx(s.tx.buf, 0, 0, false, s.tx.wspace, [], [])
    && |s.rx.buf| == |s.tx.buf| == LEN && s.tx.wspace >= 0
    && s.host.inactive == 0 && (s.host.timeout == DEFAULT_TIMEOUT || s.host.timeout == INT_MAX)
    && s.reader == RIdle && s.writer == WIdle && s.isr == Off
  }

  // ---------------------------------------------------------------- the driver's arithmetic

  /** How many bytes a reader may copy in one memcpy, given the indices it saw. */
  function ReadRun(seenIn: nat, seenOut: nat): int {
    if seenIn >= seenOut then seenIn - seenOut else LEN - seenOut
  }

  /** How many bytes a writer may copy in one memcpy, given the indices it saw. */
  function WriteRun(seenIn: nat, seenOut: nat): int {
    if seenIn < seenOut then seenOut - 1 - seenIn
    else if seenOut > 0 then LEN - seenIn
    else LEN - 1 - seenIn
  }

  function Min(a: int, b: int): int { if a < b then a else b }

  /** What a TIOCSTIMEOUT request does to the timeout; INT_MAX never changes again. */
  function NewTimeout(current: nat, requested: int): nat {
    if current == INT_MAX then INT_MAX
    else if 2 <= requested < INT_MAX then requested
    else INT_MAX - 1
  }

  /** The once-a-second check for a connected host. */
  function AfterSecond(h: Host, ac: bool): Host {
    if ac then h.(inactive := 0)
    else if h.inactive < INT_MAX - 2 then h.(inactive := h.inactive + 1)
    else h
  }

  // ---------------------------------------------------------------- steps

  predicate Raised(s: Sys) {
    (s.rx.re && s.rx.fifo != []) || (s.tx.we && s.tx.wspace > 0)
  }

  predicate Enabled(s: Sys, a: Action) {
    match a
    case Arrive(_) => true
    case HostTakes(_) => true
    case SecondTick(_) => s.isr.Off?
    case IsrEnter => s.isr.Off?
    case IsrControl(ri, wi) =>
      s.isr.Top? && (ri ==> s.rx.re && s.rx.fifo != []) && (wi ==> s.tx.we && s.tx.wspace > 0)
    case IsrRxStep => s.isr.InRx? && s.rx.inIx < |s.rx.buf|
    case IsrRxEnd => s.isr.EndRx?
    case IsrTxStep => s.isr.InTx? && s.tx.outIx < |s.tx.buf|
    case IsrTxEnd => s.isr.EndTx?
    case ReadBegin => s.isr.Off? && s.reader.RIdle?
    case ReadLook(space) => s.isr.Off? && s.reader.RTop? && space > 0
    case ReadByte => s.isr.Off? && s.reader.RCopy? && |s.reader.copied| < s.reader.n
                     && s.reader.seenOut + |s.reader.copied| < |s.rx.buf|
    case ReadPublish => s.isr.Off? && s.reader.RCopy? && |s.reader.copied| == s.reader.n
    case ReadRetry => s.isr.Off? && s.reader.REmpty? && s.reader.got == 0 && s.reader.seenIn != s.rx.inIx
    case ReadFinish => s.isr.Off? && (s.reader.RTop? || s.reader.REmpty?)
    case WriteBegin(_) => s.isr.Off? && s.writer.WIdle?
    case WriteLook => s.isr.Off? && s.writer.WTop? && s.writer.rest != []
    case WriteByte => s.isr.Off? && s.writer.WCopy? && s.writer.k < s.writer.n
                      && s.writer.k < |s.writer.rest| && s.writer.seenIn + s.writer.k < |s.tx.buf|
    case WritePublish => s.isr.Off? && s.writer.WCopy? && s.writer.k == s.writer.n <= |s.writer.rest|
    case WriteEnable(seenOut) =>
      s.isr.Off? && ((s.writer.WTop? && s.writer.rest == []) || (s.writer.WStop? && s.writer.seenOut == seenOut))
    case WriteRetry => s.isr.Off? && s.writer.WArmed? && s.writer.rest != [] && s.host.inactive == 0
    case WriteFinish => s.isr.Off? && s.writer.WArmed?
    case SetTimeout(_) => s.isr.Off?
  }

  function Apply(s: Sys, a: Action): Sys
    requires Enabled(s, a)
  {
    match a
    case Arrive(b) => s.(rx := s.rx.(fifo := s.rx.fifo + [b], arrived := s.rx.arrived + [b]))
    case HostTakes(n) => s.(tx := s.tx.(wspace := s.tx.wspace + n))
    case SecondTick(ac) => s.(host := AfterSecond(s.host, ac))
    case IsrEnter => s.(isr := Top)
    case IsrControl(ri, wi) =>
      var space := if s.tx.wspace > 0 then s.tx.wspace else 0;
      if ri then s.(isr := InRx(true, wi, space))
      else if wi then s.(isr := InTx(space))
      else s.(isr := Off)
    case IsrRxStep => ApplyIsrRx(s)
    case IsrRxEnd =>
      s.(rx := if s.isr.avail then s.rx.(re := false) else s.rx,
         isr := if s.isr.wi then InTx(s.isr.space) else Top)
    case IsrTxStep => ApplyIsrTx(s)
    case IsrTxEnd => s.(tx := if s.isr.space > 0 then s.tx.(we := false) else s.tx, isr := Top)
    case ReadBegin => s.(reader := RTop(0))
    case ReadLook(space) =>
      var n := Min(ReadRun(s.rx.inIx, s.rx.outIx), space);
      s.(reader := if n <= 0 then REmpty(s.rx.inIx, s.reader.got)
                   else RCopy(s.rx.inIx, s.rx.outIx, n, [], s.reader.got))
    case ReadByte =>
      var b := s.rx.buf[s.reader.seenOut + |s.reader.copied|];
      s.(reader := s.reader.(copied := s.reader.copied + [b]))
    case ReadPublish =>
      s.(rx := s.rx.(outIx := Advance(s.reader.seenOut, s.reader.n), delivered := s.rx.delivered + s.reader.copied),
         reader := RTop(s.reader.got + s.reader.n))
    case ReadRetry => s.(reader := RTop(0))
    case ReadFinish => s.(rx := if s.reader.got > 0 then s.rx.(re := true) else s.rx, reader := RIdle)
    case WriteBegin(data) => s.(writer := WTop(data, 0))
    case WriteLook =>
      var n := Min(WriteRun(s.tx.inIx, s.tx.outIx), |s.writer.rest|);
      s.(writer := if n <= 0 then WStop(s.tx.outIx, s.writer.rest, s.writer.owed)
                   else WCopy(s.tx.inIx, s.tx.outIx, n, 0, s.writer.rest, s.writer.owed))
    case WriteByte =>
      s.(tx := s.tx.(buf := s.tx.buf[s.writer.seenIn + s.writer.k := s.writer.rest[s.writer.k]]),
         writer := s.writer.(k := s.writer.k + 1))
    case WritePublish =>
      s.(tx := s.tx.(inIx := Advance(s.writer.seenIn, s.writer.n),
                     accepted := s.tx.accepted + s.writer.rest[..s.writer.n]),
         writer := WTop(s.writer.rest[s.writer.n..], s.writer.owed + s.writer.n))
    case WriteEnable(seenOut) =>
      s.(tx := s.tx.(we := true), writer := WArmed(seenOut, s.writer.rest))
    case WriteRetry => s.(writer := WTop(s.writer.rest, 0))
    case WriteFinish => s.(writer := WIdle)
    case SetTimeout(requested) => s.(host := s.host.(timeout := NewTimeout(s.host.timeout, requested)))
  }

  /** One round of the receive loop: stop when the buffer is full or the FIFO is empty. */
  function ApplyIsrRx(s: Sys): Sys
    requires s.isr.InRx? && s.rx.inIx < |s.rx.buf|
  {
    if Advance(s.rx.inIx, 1) == s.rx.outIx then
      s.(isr := EndRx(s.isr.avail, s.isr.wi, s.isr.space))
    else if s.rx.fifo == [] then
      s.(isr := EndRx(false, s.isr.wi, s.isr.space))
    else
      s.(rx := s.rx.(buf := s.rx.buf[s.rx.inIx := s.rx.fifo[0]], inIx := Advance(s.rx.inIx, 1),
                     fifo := s.rx.fifo[1..], drained := s.rx.drained + [s.rx.fifo[0]]),
         isr := InRx(|s.rx.fifo| > 1, s.isr.wi, s.isr.space))
  }

  /** One round of the transmit loop: stop when the device is full or the buffer is empty. */
  function ApplyIsrTx(s: Sys): Sys
    requires s.isr.InTx? && s.tx.outIx < |s.tx.buf|
  {
    if s.isr.space > 0 && s.tx.outIx != s.tx.inIx then
      s.(tx := s.tx.(outIx := Advance(s.tx.outIx, 1), wspace := s.tx.wspace - 1,
                     sent := s.tx.sent + [s.tx.buf[s.tx.outIx]]),
         isr := InTx(s.isr.space - 1))
    else
      s.(isr := EndTx(s.isr.space))
  }

  // ---------------------------------------------------------------- the invariant

  function Got(r: Reader): nat { if r.RIdle? then 0 else r.got }

  ghost function Waiting(rx: Rx): seq<Byte>
    requires Shape(rx.buf, rx.outIx, rx.inIx)
  {
    Content(rx.buf, rx.outIx, rx.inIx)
  }

  ghost function Pending(tx: Tx): seq<Byte>
    requires Shape(tx.buf, tx.outIx, tx.inIx)
  {
    Content(tx.buf, tx.outIx, tx.inIx)
  }

  predicate RxFull(rx: Rx) { Advance(rx.inIx, 1) == rx.outIx }

  /** Every byte that arrived is delivered, waiting in the buffer, or still in the device, in order. */
  ghost predicate ReceiveConserved(rx: Rx) {
    && Shape(rx.buf, rx.outIx, rx.inIx)
    && rx.drained == rx.delivered + Waiting(rx)
    && rx.arrived == rx.drained + rx.fifo
  }

  /** A reader's snapshot stays usable however old it gets. */
  ghost predicate ReaderSound(rx: Rx, reader: Reader)
    requires ReceiveConserved(rx)
  {
    match reader
    case RIdle => true
    case RTop(_) => true
    case RCopy(_, seenOut, n, copied, _) =>
      && seenOut == rx.outIx && 0 < n && seenOut + n <= LEN && n <= |Waiting(rx)|
      && |copied| <= n && copied == rx.buf[seenOut..seenOut + |copied|]
    case REmpty(seenIn, _) => seenIn == rx.outIx
  }

  /** Besides, receive interrupts are off only while the buffer is full or a reader is bound to turn
      them on. */
  ghost predicate RxInv(rx: Rx, reader: Reader) {
    && ReceiveConserved(rx) && ReaderSound(rx, reader)
    && (!rx.re ==> RxFull(rx) || Got(reader) > 0)
  }

  /** Every accepted byte was sent to the device or is pending in the buffer, in order. */
  ghost predicate TransmitConserved(tx: Tx) {
    && Shape(tx.buf, tx.outIx, tx.inIx)
    && tx.accepted == tx.sent + Pending(tx)
  }

  /** A writer's snapshot stays usable however old it gets. */
  ghost predicate WriterSound(tx: Tx, writer: Writer)
    requires TransmitConserved(tx)
  {
    match writer
    case WIdle => true
    case WTop(_, _) => true
    case WCopy(seenIn, _, n, k, rest, _) =>
      && seenIn == tx.inIx && 0 < n <= |rest| && k <= n && seenIn + n <= LEN
      && n <= LEN - 1 - |Pending(tx)|
      && tx.buf[seenIn..seenIn + k] == rest[..k]
    case WStop(seenOut, rest, _) => Advance(tx.inIx, 1) == seenOut && rest != []
    case WArmed(seenOut, rest) => rest != [] ==> Advance(tx.inIx, 1) == seenOut
  }

  /** The writer has published bytes and has not yet passed through the step that sets WE. */
  predicate WriterOwesEnable(w: Writer) { (w.WTop? || w.WCopy? || w.WStop?) && w.owed > 0 }

  /** Besides, transmit interrupts are off only while nothing is pending or a writer stands between its
      publication and the store that turns them on, and the device was never sent more than it had room for. */
  ghost predicate TxInv(tx: Tx, writer: Writer) {
    && TransmitConserved(tx) && WriterSound(tx, writer)
    && (tx.outIx != tx.inIx ==> tx.we || WriterOwesEnable(writer))
    && 0 <= tx.wspace
  }

  /** Inside a pass of the interrupt routine what it saw is still there, because the thread is stopped;
      it finds its reason to turn an interrupt off only where the buffer gives that reason. */
  predicate IsrInv(rx: Rx, tx: Tx, isr: Isr) {
    match isr
    case Off => true
    case Top => true
    case InRx(avail, wi, space) =>
      rx.re && (avail ==> rx.fifo != []) && (wi ==> tx.we && 0 < space <= tx.wspace)
    case EndRx(avail, wi, space) =>
      rx.re && (avail ==> RxFull(rx)) && (wi ==> tx.we && 0 < space <= tx.wspace)
    case InTx(space) => tx.we && space <= tx.wspace
    case EndTx(space) => tx.we && space <= tx.wspace && (space > 0 ==> tx.outIx == tx.inIx)
  }

  predicate HostSound(h: Host) { h.inactive <= INT_MAX - 2 && 2 <= h.timeout <= INT_MAX }

  ghost predicate Inv(s: Sys) {
    RxInv(s.rx, s.reader) && TxInv(s.tx, s.writer) && IsrInv(s.rx, s.tx, s.isr) && HostSound(s.host)
  }

  lemma InitialInv(s: Sys)
    requires Initial(s)
    ensures Inv(s)
  {
  }

  lemma ArriveKeeps(s: Sys, b: Byte)
    requires Inv(s)
    ensures Inv(Apply(s, Arrive(b)))
  {
    var t := Apply(s, Arrive(b));
    assert Waiting(t.rx) == Waiting(s.rx);
    assert t.rx.arrived == t.rx.drained + t.rx.fifo;
    assert RxInv(t.rx, t.reader);
  }

  lemma HostStepKeeps(s: Sys, a: Action)
    requires Inv(s) && Enabled(s, a)
    requires a.HostTakes? || a.SecondTick? || a.SetTimeout?
    ensures Inv(Apply(s, a))
  {
    var t := Apply(s, a);
    assert Pending(t.tx) == Pending(s.tx);
    assert TxInv(t.tx, t.writer);
  }

  lemma StoreArrived(rx: Rx, reader: Reader)
    requires RxInv(rx, reader) && !RxFull(rx) && rx.fifo != []
    ensures var b := rx.fifo[0];
      RxInv(rx.(buf := rx.buf[rx.inIx := b], inIx := Advance(rx.inIx, 1), fifo := rx.fifo[1..],
                drained := rx.drained + [b]), reader)
  {
    var b := rx.fifo[0];
    var t := rx.(buf := rx.buf[rx.inIx := b], inIx := Advance(rx.inIx, 1), fifo := rx.fifo[1..],
                 drained := rx.drained + [b]);
    Push(rx.buf, rx.outIx, rx.inIx, b);
    assert Waiting(t) == Waiting(rx) + [b];
    assert rx.fifo == [b] + rx.fifo[1..];
    assert ReceiveConserved(t);
    if reader.RCopy? {
      // the byte goes to the write index, which lies outside the run being copied
      assert forall i :: reader.seenOut <= i < reader.seenOut + reader.n ==> t.buf[i] == rx.buf[i];
      assert t.buf[reader.seenOut..reader.seenOut + |reader.copied|] == reader.copied;
    }
  }

  lemma IsrRxStepKeeps(s: Sys)
    requires Inv(s) && s.isr.InRx?
    ensures Inv(ApplyIsrRx(s))
  {
    var t := ApplyIsrRx(s);
    if t.rx != s.rx {
      StoreArrived(s.rx, s.reader);
    }
    assert RxInv(t.rx, t.reader);
  }

  lemma SendOne(tx: Tx, writer: Writer)
    requires TxInv(tx, writer) && tx.outIx != tx.inIx && tx.wspace > 0
    ensures TxInv(tx.(outIx := Advance(tx.outIx, 1), wspace := tx.wspace - 1,
                      sent := tx.sent + [tx.buf[tx.outIx]]), writer)
  {
    var t := tx.(outIx := Advance(tx.outIx, 1), wspace := tx.wspace - 1, sent := tx.sent + [tx.buf[tx.outIx]]);
    PopOne(tx.buf, tx.outIx, tx.inIx);
    assert tx.sent + ([tx.buf[tx.outIx]] + Pending(t)) == t.sent + Pending(t);
    assert |Pending(t)| == |Pending(tx)| - 1;
    assert WriterSound(t, writer);
  }

  lemma IsrTxStepKeeps(s: Sys)
    requires Inv(s) && s.isr.InTx?
    ensures Inv(ApplyIsrTx(s))
  {
    var t := ApplyIsrTx(s);
    if t.tx != s.tx {
      SendOne(s.tx, s.writer);
    }
    assert TxInv(t.tx, t.writer);
  }

  lemma IsrRxEndKeeps(s: Sys)
    requires Inv(s) && s.isr.EndRx?
    ensures Inv(Apply(s, IsrRxEnd))
  {
    var t := Apply(s, IsrRxEnd);
    assert Waiting(t.rx) == Waiting(s.rx);
    assert RxInv(t.rx, t.reader);
  }

  lemma IsrTxEndKeeps(s: Sys)
    requires Inv(s) && s.isr.EndTx?
    ensures Inv(Apply(s, IsrTxEnd))
  {
    var t := Apply(s, IsrTxEnd);
    assert Pending(t.tx) == Pending(s.tx);
    assert TxInv(t.tx, t.writer);
  }

  lemma ReaderStepKeeps(s: Sys, a: Action)
    requires Inv(s) && Enabled(s, a)
    requires a.ReadBegin? || a.ReadLook? || a.ReadRetry?
    ensures Inv(Apply(s, a))
  {
    var t := Apply(s, a);
    assert t.rx == s.rx;
    assert RxInv(t.rx, t.reader);
  }

  lemma ReadByteKeeps(s: Sys)
    requires Inv(s) && Enabled(s, ReadByte)
    ensures Inv(Apply(s, ReadByte))
  {
    var t := Apply(s, ReadByte);
    assert t.rx == s.rx;
    assert t.reader.copied == s.rx.buf[s.reader.seenOut..s.reader.seenOut + |t.reader.copied|];
    assert RxInv(t.rx, t.reader);
  }

  lemma TakeRunKeeps(rx: Rx, reader: Reader)
    requires RxInv(rx, reader) && reader.RCopy? && |reader.copied| == reader.n
    ensures RxInv(rx.(outIx := Advance(reader.seenOut, reader.n), delivered := rx.delivered + reader.copied),
                  RTop(reader.got + reader.n))
  {
    PopRun(rx.buf, rx.outIx, rx.inIx, reader.n);
    var after := Content(rx.buf, Advance(rx.outIx, reader.n), rx.inIx);
    assert Waiting(rx) == reader.copied + after;
    assert rx.delivered + (reader.copied + after) == (rx.delivered + reader.copied) + after;
  }

  lemma ReadPublishKeeps(s: Sys)
    requires Inv(s) && Enabled(s, ReadPublish)
    ensures Inv(Apply(s, ReadPublish))
  {
    TakeRunKeeps(s.rx, s.reader);
  }

  lemma ReadFinishKeeps(s: Sys)
    requires Inv(s) && Enabled(s, ReadFinish)
    ensures Inv(Apply(s, ReadFinish))
  {
    var t := Apply(s, ReadFinish);
    assert Waiting(t.rx) == Waiting(s.rx);
    assert RxInv(t.rx, t.reader);
  }

  lemma WriterStepKeeps(s: Sys, a: Action)
    requires Inv(s) && Enabled(s, a)
    requires a.WriteBegin? || a.WriteLook? || a.WriteRetry? || a.WriteFinish?
    ensures Inv(Apply(s, a))
  {
    var t := Apply(s, a);
    assert t.tx == s.tx;
    assert TxInv(t.tx, t.writer);
  }

  lemma WriteByteKeeps(s: Sys)
    requires Inv(s) && Enabled(s, WriteByte)
    ensures Inv(Apply(s, WriteByte))
  {
    var t := Apply(s, WriteByte);
    var i, b := s.writer.seenIn + s.writer.k, s.writer.rest[s.writer.k];
    StoreOutside(s.tx.buf, s.tx.outIx, s.tx.inIx, i, b);
    assert t.tx.buf == s.tx.buf[i := b];
    assert t.tx.buf[s.writer.seenIn..i + 1] == s.tx.buf[s.writer.seenIn..i] + [b];
    assert s.writer.rest[..t.writer.k] == s.writer.rest[..s.writer.k] + [b];
    assert TxInv(t.tx, t.writer);
  }

  lemma AddRunKeeps(tx: Tx, writer: Writer)
    requires TxInv(tx, writer) && writer.WCopy? && writer.k == writer.n
    ensures TxInv(tx.(inIx := Advance(writer.seenIn, writer.n), accepted := tx.accepted + writer.rest[..writer.n]),
                  WTop(writer.rest[writer.n..], writer.owed + writer.n))
  {
    var t := tx.(inIx := Advance(writer.seenIn, writer.n), accepted := tx.accepted + writer.rest[..writer.n]);
    Publish(tx.buf, tx.outIx, tx.inIx, writer.n);
    assert Pending(t) == Pending(tx) + writer.rest[..writer.n];
    hide Content;
    Regroup(tx.sent, Pending(tx), writer.rest[..writer.n]);
  }

  lemma Regroup(a: seq<Byte>, b: seq<Byte>, c: seq<Byte>)
    ensures (a + b) + c == a + (b + c)
  {
  }

  lemma WritePublishKeeps(s: Sys)
    requires Inv(s) && Enabled(s, WritePublish)
    ensures Inv(Apply(s, WritePublish))
  {
    AddRunKeeps(s.tx, s.writer);
  }

  lemma WriteEnableKeeps(s: Sys, seenOut: nat)
    requires Inv(s) && Enabled(s, WriteEnable(seenOut))
    ensures Inv(Apply(s, WriteEnable(seenOut)))
  {
    var t := Apply(s, WriteEnable(seenOut));
    assert Pending(t.tx) == Pending(s.tx);
    assert TxInv(t.tx, t.writer);
  }

  lemma IsrLookKeeps(s: Sys, a: Action)
    requires Inv(s) && Enabled(s, a) && (a.IsrEnter? || a.IsrControl?)
    ensures Inv(Apply(s, a))
  {
  }

  lemma StepKeeps(s: Sys, a: Action)
    requires Inv(s) && Enabled(s, a)
    ensures Inv(Apply(s, a))
  {
    hide Inv;
    match a
    case Arrive(b) => ArriveKeeps(s, b);
    case HostTakes(_) => HostStepKeeps(s, a);
    case SecondTick(_) => HostStepKeeps(s, a);
    case SetTimeout(_) => HostStepKeeps(s, a);
    case IsrRxStep => IsrRxStepKeeps(s);
    case IsrTxStep => IsrTxStepKeeps(s);
    case IsrRxEnd => IsrRxEndKeeps(s);
    case IsrTxEnd => IsrTxEndKeeps(s);
    case IsrEnter => IsrLookKeeps(s, a);
    case IsrControl(_, _) => IsrLookKeeps(s, a);
    case ReadBegin => ReaderStepKeeps(s, a);
    case ReadLook(_) => ReaderStepKeeps(s, a);
    case ReadRetry => ReaderStepKeeps(s, a);
    case ReadByte => ReadByteKeeps(s);
    case ReadPublish => ReadPublishKeeps(s);
    case ReadFinish => ReadFinishKeeps(s);
    case WriteBegin(_) => WriterStepKeeps(s, a);
    case WriteLook => WriterStepKeeps(s, a);
    case WriteRetry => WriterStepKeeps(s, a);
    case WriteFinish => WriterStepKeeps(s, a);
    case WriteByte => WriteByteKeeps(s);
    case WritePublish => WritePublishKeeps(s);
    case WriteEnable(seenOut) => WriteEnableKeeps(s, seenOut);
  }

  // ---------------------------------------------------------------- runs

  /** The action sequence can be carried out from `start`, every action when it is enabled. */
  ghost predicate Legal(start: Sys, acts: seq<Action>)
    decreases |acts|, 0
  {
    acts == [] || (var n := |acts| - 1; Legal(start, acts[..n]) && Enabled(Exec(start, acts[..n]), acts[n]))
  }

  ghost function Exec(start: Sys, acts: seq<Action>): Sys
    requires Legal(start, acts)
    decreases |acts|, 1
  {
    if acts == [] then start
    else var n := |acts| - 1; Apply(Exec(start, acts[..n]), acts[n])
  }

  lemma ExecSnoc(start: Sys, acts: seq<Action>, a: Action)
    requires Legal(start, acts) && Enabled(Exec(start, acts), a)
    ensures Legal(start, acts + [a]) && Exec(start, acts + [a]) == Apply(Exec(start, acts), a)
  {
    assert (acts + [a])[..|acts|] == acts;
  }

  lemma {:induction false} InvAlways(start: Sys, acts: seq<Action>)
    requires Initial(start) && Legal(start, acts)
    ensures Inv(Exec(start, acts))
    decreases |acts|
  {
    if acts == [] {
      InitialInv(start);
    } else {
      var n := |acts| - 1;
      InvAlways(start, acts[..n]);
      StepKeeps(Exec(start, acts[..n]), acts[n]);
    }
  }

  /** `s` is where the run `acts` leads. */
  ghost predicate Reached(start: Sys, acts: seq<Action>, s: Sys) {
    Initial(start) && Legal(start, acts) && s == Exec(start, acts)
  }

  lemma ReachedInv(start: Sys, acts: seq<Action>, s: Sys)
    requires Reached(start, acts, s)
    ensures Inv(s)
  {
    InvAlways(start, acts);
  }

  lemma ReachedStep(start: Sys, acts: seq<Action>, s: Sys, a: Action)
    requires Reached(start, acts, s) && Enabled(s, a)
    ensures Reached(start, acts + [a], Apply(s, a))
  {
    ExecSnoc(start, acts, a);
  }

  /** What a call of the driver may find changed when it looks again: everybody but the thread has
      acted. Its own place, its two indices and what it handed over are as it left them. */
  ghost predicate ThreadFrozen(s: Sys, t: Sys) {
    && t.reader == s.reader && t.writer == s.writer
    && t.rx.outIx == s.rx.outIx && t.tx.inIx == s.tx.inIx
    && t.rx.delivered == s.rx.delivered && t.tx.accepted == s.tx.accepted
    && t.host.timeout == s.host.timeout
    && |s.rx.drained| <= |t.rx.drained| && |s.tx.sent| <= |t.tx.sent|
  }

  lemma IndicesInBounds(start: Sys, acts: seq<Action>, s: Sys)
    requires Reached(start, acts, s)
    ensures s.rx.inIx < LEN && s.rx.outIx < LEN && s.tx.inIx < LEN && s.tx.outIx < LEN
    ensures |s.rx.buf| == |s.tx.buf| == LEN && s.tx.wspace >= 0
    ensures s.host.inactive <= INT_MAX - 2 && 2 <= s.host.timeout
  {
    InvAlways(start, acts);
  }

  lemma CopyInBounds(start: Sys, acts: seq<Action>, s: Sys)
    requires Reached(start, acts, s)
    ensures s.reader.RCopy? ==> s.reader.seenOut + s.reader.n <= LEN == |s.rx.buf|
    ensures s.writer.WCopy? ==> s.writer.seenIn + s.writer.n <= LEN == |s.tx.buf|
  {
    InvAlways(start, acts);
  }

  lemma EmptySnapshot(start: Sys, acts: seq<Action>, s: Sys)
    requires Reached(start, acts, s) && s.reader.REmpty?
    ensures s.reader.seenIn == s.rx.outIx
    ensures s.reader.got == 0 ==> s.rx.re || s.rx.inIx != s.reader.seenIn
  {
    InvAlways(start, acts);
    FullIffNoRoom(s.rx.buf, s.rx.outIx, s.rx.inIx);
  }

  /** A writer that saw no free slot saw a full buffer. */
  lemma FullSnapshot(start: Sys, acts: seq<Action>, s: Sys)
    requires Reached(start, acts, s) && s.writer.WStop? && s.writer.seenOut == s.tx.outIx
    ensures |s.tx.accepted| == |s.tx.sent| + LEN - 1
  {
    InvAlways(start, acts);
    FullIffNoRoom(s.tx.buf, s.tx.outIx, s.tx.inIx);
  }

  /** Bytes pending and nobody bound to set WE: it is set. Nothing pending: all was sent. */
  lemma PendingSnapshot(start: Sys, acts: seq<Action>, s: Sys)
    requires Reached(start, acts, s)
    ensures s.tx.outIx != s.tx.inIx && !WriterOwesEnable(s.writer) ==> s.tx.we
    ensures s.tx.outIx == s.tx.inIx <==> s.tx.sent == s.tx.accepted
  {
    InvAlways(start, acts);
    FullIffNoRoom(s.tx.buf, s.tx.outIx, s.tx.inIx);
    if s.tx.sent == s.tx.accepted {
      assert |Pending(s.tx)| == 0;
    }
  }

  /** A reader that sees equal indices has handed over everything that was taken out of the device. */
  lemma NothingWaiting(start: Sys, acts: seq<Action>, s: Sys)
    requires Reached(start, acts, s) && s.rx.inIx == s.rx.outIx
    ensures s.rx.delivered == s.rx.drained
  {
    InvAlways(start, acts);
    assert s.rx.delivered + [] == s.rx.delivered;
  }

  /** How many more bytes the transmit buffer could take. */
  function Room(tx: Tx): int { LEN - 1 - (|tx.accepted| - |tx.sent|) }

  /** A blocked writer that sees another read index than before has room. */
  lemma RoomHasCome(start: Sys, acts: seq<Action>, s: Sys)
    requires Reached(start, acts, s) && s.writer.WArmed? && s.writer.rest != [] && s.tx.outIx != s.writer.seenOut
    ensures Room(s.tx) > 0
  {
    InvAlways(start, acts);
    FullIffNoRoom(s.tx.buf, s.tx.outIx, s.tx.inIx);
  }

  /** What is waiting to be read stays there until a reader takes it. */
  lemma WaitingStays(start: Sys, acts: seq<Action>, s: Sys, later: seq<Action>, t: Sys)
    requires Reached(start, acts, s) && Reached(start, later, t)
    requires t.rx.delivered == s.rx.delivered && |s.rx.drained| <= |t.rx.drained|
    requires s.rx.inIx != s.rx.outIx
    ensures t.rx.inIx != t.rx.outIx
  {
    InvAlways(start, acts);
    InvAlways(start, later);
  }

  /** What a read call leaves alone, whatever the others do meanwhile. */
  ghost predicate ReadFrame(s: Sys, t: Sys) {
    && t.writer == s.writer && t.tx.inIx == s.tx.inIx && t.tx.accepted == s.tx.accepted
    && t.host.timeout == s.host.timeout && |s.rx.drained| <= |t.rx.drained|
  }

  /** What a write or close call leaves alone, whatever the others do meanwhile. */
  ghost predicate WriteFrame(s: Sys, t: Sys) {
    && t.reader == s.reader && t.rx.outIx == s.rx.outIx && t.rx.delivered == s.rx.delivered
    && t.host.timeout == s.host.timeout && |s.tx.sent| <= |t.tx.sent|
  }

  /** The bytes the host put into the device during a run. */
  ghost function Arrivals(acts: seq<Action>): seq<Byte>
    decreases |acts|
  {
    if acts == [] then []
    else var n := |acts| - 1;
      Arrivals(acts[..n]) + if acts[n].Arrive? then [acts[n].b] else []
  }

  lemma {:induction false} ArrivalsRecorded(start: Sys, acts: seq<Action>)
    requires Initial(start) && Legal(start, acts)
    ensures Exec(start, acts).rx.arrived == Arrivals(acts)
    decreases |acts|
  {
    if acts == [] {
    } else {
      ArrivalsRecorded(start, acts[..|acts| - 1]);
    }
  }

  /** Receive side, over every run: what readers got, then what is waiting in the buffer, then what
      is still in the device, is exactly what the host sent; nothing lost, doubled or reordered. */
  lemma NothingLostReceiving(start: Sys, acts: seq<Action>)
    requires Initial(start) && Legal(start, acts)
    ensures var s := Exec(start, acts);
      && Shape(s.rx.buf, s.rx.outIx, s.rx.inIx)
      && s.rx.delivered + Waiting(s.rx) + s.rx.fifo == Arrivals(acts)
      && s.rx.delivered <= Arrivals(acts)
      && (s.reader.RCopy? ==> s.rx.delivered + s.reader.copied <= Arrivals(acts))
  {
    var s := Exec(start, acts);
    InvAlways(start, acts);
    ArrivalsRecorded(start, acts);
    if s.reader.RCopy? {
      Pop(s.rx.buf, s.rx.outIx, s.rx.inIx, |s.reader.copied|);
      assert s.reader.copied <= Waiting(s.rx);
    }
  }

  /** Transmit side, over every run: what reached the device, then what is pending in the buffer, is
      exactly what writers were told was accepted; and the device is never sent more than it has room for. */
  lemma NothingLostSending(start: Sys, acts: seq<Action>)
    requires Initial(start) && Legal(start, acts)
    ensures var s := Exec(start, acts);
      && Shape(s.tx.buf, s.tx.outIx, s.tx.inIx)
      && s.tx.sent + Pending(s.tx) == s.tx.accepted
      && s.tx.wspace >= 0
      && (s.isr.InTx? ==> s.isr.space <= s.tx.wspace)
  {
    InvAlways(start, acts);
  }

  /** No memcpy of the driver and no store of the interrupt routine leaves its array, in any run. */
  lemma EveryAccessInBounds(start: Sys, acts: seq<Action>)
    requires Initial(start) && Legal(start, acts)
    ensures var s := Exec(start, acts);
      && (s.isr.InRx? ==> Enabled(s, IsrRxStep))
      && (s.isr.InTx? ==> Enabled(s, IsrTxStep))
      && (s.isr.Off? && s.reader.RCopy? && |s.reader.copied| < s.reader.n ==> Enabled(s, ReadByte))
      && (s.isr.Off? && s.writer.WCopy? && s.writer.k < s.writer.n ==> Enabled(s, WriteByte))
      && (s.isr.Off? && s.writer.WCopy? && s.writer.k == s.writer.n ==> Enabled(s, WritePublish))
  {
    InvAlways(start, acts);
  }

  // ---------------------------------------------------------------- no lost wake-up

  /** In every run receive interrupts are off only while the buffer is full or a reader stands between
      taking bytes and the store of RE; transmit interrupts are off only while nothing is pending or a writer
      stands between its publication and the store of WE. */
  lemma InterruptsOnWhenNeeded(start: Sys, acts: seq<Action>)
    requires Initial(start) && Legal(start, acts)
    ensures var s := Exec(start, acts);
      && (!s.rx.re ==> RxFull(s.rx) || Got(s.reader) > 0)
      && (s.tx.outIx != s.tx.inIx ==> s.tx.we || WriterOwesEnable(s.writer))
  {
    InvAlways(start, acts);
  }

  predicate LeavesReader(a: Action) {
    !a.ReadBegin? && !a.ReadLook? && !a.ReadByte? && !a.ReadPublish? && !a.ReadRetry? && !a.ReadFinish?
  }

  predicate LeavesWriter(a: Action) {
    && !a.WriteBegin? && !a.WriteLook? && !a.WriteByte? && !a.WritePublish? && !a.WriteEnable?
    && !a.WriteRetry? && !a.WriteFinish?
  }

  /** The reader found the buffer empty and nothing has come since it looked. */
  ghost predicate ReaderSpins(s: Sys) {
    Inv(s) && s.reader.REmpty? && s.reader.got == 0 && s.reader.seenIn == s.rx.inIx
  }

  /** Bytes are pending and no writer is on its way: the caller of close waits for them, or a writer for room. */
  ghost predicate BytesPend(s: Sys) {
    Inv(s) && (s.writer.WIdle? || s.writer.WArmed?) && s.tx.outIx != s.tx.inIx
  }

  /** The writer found the buffer full and nothing has been sent since it looked. */
  ghost predicate WriterSpins(s: Sys) {
    Inv(s) && s.writer.WArmed? && s.writer.rest != [] && s.writer.seenOut == s.tx.outIx
  }

  /** `t` comes after `s` with the reader still at the same place; until a byte is stored, the bytes in the
      device stay there. */
  ghost predicate ReaderStill(s: Sys, t: Sys) {
    && Inv(t) && t.reader == s.reader && t.rx.outIx == s.rx.outIx && t.rx.delivered == s.rx.delivered
    && |s.rx.drained| <= |t.rx.drained|
    && (|t.rx.drained| == |s.rx.drained| ==> |s.rx.fifo| <= |t.rx.fifo|)
  }

  /** `t` comes after `s` with the writer still at the same place; until a byte is sent, the room in the
      device stays there. */
  ghost predicate WriterStill(s: Sys, t: Sys) {
    && Inv(t) && t.writer == s.writer && t.tx.inIx == s.tx.inIx && t.tx.accepted == s.tx.accepted
    && |s.tx.sent| <= |t.tx.sent|
    && (|t.tx.sent| == |s.tx.sent| ==> s.tx.wspace <= t.tx.wspace)
  }

  lemma ReaderStillStep(s: Sys, t: Sys, a: Action)
    requires ReaderStill(s, t) && Enabled(t, a) && LeavesReader(a)
    ensures ReaderStill(s, Apply(t, a))
  {
    StepKeeps(t, a);
    hide Inv;
  }

  lemma WriterStillStep(s: Sys, t: Sys, a: Action)
    requires WriterStill(s, t) && Enabled(t, a) && LeavesWriter(a)
    ensures WriterStill(s, Apply(t, a))
  {
    StepKeeps(t, a);
    hide Inv;
  }

  /** What the spinning reader sees: the write index differs just when a byte has been stored since. */
  lemma ReaderSees(s: Sys, t: Sys)
    requires ReaderSpins(s) && ReaderStill(s, t)
    ensures t.rx.inIx == s.reader.seenIn <==> |t.rx.drained| == |s.rx.drained|
    ensures t.rx.inIx == s.reader.seenIn ==> t.rx.re && !RxFull(t.rx)
  {
    FullIffNoRoom(s.rx.buf, s.rx.outIx, s.rx.inIx);
    FullIffNoRoom(t.rx.buf, t.rx.outIx, t.rx.inIx);
  }

  /** As long as nothing is sent, bytes pend and WE is set. */
  lemma PendSees(s: Sys, t: Sys)
    requires BytesPend(s) && WriterStill(s, t)
    ensures |t.tx.sent| == |s.tx.sent| ==> t.tx.outIx != t.tx.inIx
    ensures t.tx.outIx != t.tx.inIx ==> t.tx.we
  {
    FullIffNoRoom(s.tx.buf, s.tx.outIx, s.tx.inIx);
    FullIffNoRoom(t.tx.buf, t.tx.outIx, t.tx.inIx);
  }

  lemma SpinningPends(s: Sys)
    requires WriterSpins(s)
    ensures BytesPend(s)
  {
    FullIffNoRoom(s.tx.buf, s.tx.outIx, s.tx.inIx);
  }

  /** What the spinning writer sees: the read index differs just when a byte has been sent since. */
  lemma WriterSees(s: Sys, t: Sys)
    requires WriterSpins(s) && WriterStill(s, t)
    ensures t.tx.outIx == s.writer.seenOut <==> |t.tx.sent| == |s.tx.sent|
    ensures t.tx.outIx == s.writer.seenOut ==> t.tx.we && t.tx.outIx != t.tx.inIx
  {
    FullIffNoRoom(s.tx.buf, s.tx.outIx, s.tx.inIx);
    FullIffNoRoom(t.tx.buf, t.tx.outIx, t.tx.inIx);
  }

  /** A byte has been stored, or the interrupt routine is about to store one. */
  ghost predicate WillStore(s: Sys, t: Sys) {
    |s.rx.drained| < |t.rx.drained| || (t.isr.InRx? && t.rx.fifo != [])
  }

  /** A byte has been sent, or the interrupt routine is on its way to send one. */
  ghost predicate WillSend(s: Sys, t: Sys) {
    || |s.tx.sent| < |t.tx.sent|
    || ((t.isr.InRx? || t.isr.EndRx?) && t.isr.wi)
    || (t.isr.InTx? && t.isr.space > 0)
  }

  lemma WillStoreStep(s: Sys, t: Sys, a: Action)
    requires ReaderSpins(s) && ReaderStill(s, t) && Enabled(t, a) && LeavesReader(a)
    requires WillStore(s, t) || (a.IsrControl? && a.ri)
    ensures WillStore(s, Apply(t, a))
  {
    ReaderSees(s, t);
    hide Inv;
  }

  lemma WillSendStep(s: Sys, t: Sys, a: Action)
    requires BytesPend(s) && WriterStill(s, t) && Enabled(t, a) && LeavesWriter(a)
    requires WillSend(s, t) || (a.IsrControl? && a.wi)
    ensures WillSend(s, Apply(t, a))
  {
    PendSees(s, t);
    assert IsrInv(t.rx, t.tx, t.isr);
    hide Inv;
  }

  /** The routine was entered for received bytes, or for room, at least once. */
  predicate ServedRead(acts: seq<Action>) {
    exists i :: 0 <= i < |acts| && acts[i].IsrControl? && acts[i].ri
  }

  predicate ServedWrite(acts: seq<Action>) {
    exists i :: 0 <= i < |acts| && acts[i].IsrControl? && acts[i].wi
  }

  lemma {:induction false} ReaderWaits(s: Sys, acts: seq<Action>)
    requires ReaderSpins(s) && Legal(s, acts) && forall i :: 0 <= i < |acts| ==> LeavesReader(acts[i])
    ensures ReaderStill(s, Exec(s, acts))
    ensures ServedRead(acts) ==> WillStore(s, Exec(s, acts))
    decreases |acts|
  {
    hide Inv, WillStore, Enabled, Apply, LeavesReader;
    if acts == [] {
      assert Exec(s, acts) == s;
    } else {
      var n := |acts| - 1;
      ReaderWaits(s, acts[..n]);
      var t := Exec(s, acts[..n]);
      ReaderStillStep(s, t, acts[n]);
      if ServedRead(acts) {
        var i :| 0 <= i < |acts| && acts[i].IsrControl? && acts[i].ri;
        assert i < n ==> acts[..n][i] == acts[i];
        WillStoreStep(s, t, acts[n]);
      }
    }
  }

  lemma {:induction false} WriterWaits(s: Sys, acts: seq<Action>)
    requires BytesPend(s) && Legal(s, acts) && forall i :: 0 <= i < |acts| ==> LeavesWriter(acts[i])
    ensures WriterStill(s, Exec(s, acts))
    ensures ServedWrite(acts) ==> WillSend(s, Exec(s, acts))
    decreases |acts|
  {
    hide Inv, WillSend, Enabled, Apply, LeavesWriter;
    if acts == [] {
      assert Exec(s, acts) == s;
    } else {
      var n := |acts| - 1;
      WriterWaits(s, acts[..n]);
      var t := Exec(s, acts[..n]);
      WriterStillStep(s, t, acts[n]);
      if ServedWrite(acts) {
        var i :| 0 <= i < |acts| && acts[i].IsrControl? && acts[i].wi;
        assert i < n ==> acts[..n][i] == acts[i];
        WillSendStep(s, t, acts[n]);
      }
    }
  }

  /** A reader that spins is woken: whatever everybody else does meanwhile, as long as it sees nothing new,
      receive interrupts are on and the interrupt is raised if a byte was there; and once the routine has
      been entered for received bytes and has returned, the reader sees a new index. */
  lemma SpinningReaderIsWoken(s: Sys, acts: seq<Action>)
    requires ReaderSpins(s) && Legal(s, acts) && forall i :: 0 <= i < |acts| ==> LeavesReader(acts[i])
    ensures var t := Exec(s, acts);
      && (t.rx.inIx == s.reader.seenIn ==> t.rx.re && (s.rx.fifo != [] ==> Raised(t)))
      && (ServedRead(acts) && t.isr.Off? ==> t.rx.inIx != s.reader.seenIn)
  {
    hide Inv, LeavesReader, ServedRead;
    ReaderWaits(s, acts);
    ReaderSees(s, Exec(s, acts));
  }

  /** A writer that spins is woken: whatever everybody else does meanwhile, as long as it sees nothing new,
      transmit interrupts are on and the interrupt is raised if the device had room; and once the routine has
      been entered for room and has returned, the writer sees a new index. */
  lemma SpinningWriterIsWoken(s: Sys, acts: seq<Action>)
    requires WriterSpins(s) && Legal(s, acts) && forall i :: 0 <= i < |acts| ==> LeavesWriter(acts[i])
    ensures var t := Exec(s, acts);
      && (t.tx.outIx == s.writer.seenOut ==> t.tx.we && (s.tx.wspace > 0 ==> Raised(t)))
      && (ServedWrite(acts) && t.isr.Off? ==> t.tx.outIx != s.writer.seenOut)
  {
    SpinningPends(s);
    hide Inv, LeavesWriter, ServedWrite;
    WriterWaits(s, acts);
    WriterSees(s, Exec(s, acts));
  }

  /** Close, which waits for pending bytes, is woken: whatever everybody else does meanwhile, as long as bytes are
      pending, transmit interrupts are on; until one is sent the interrupt is raised if the device had room; and
      once the routine has been entered for room and has returned, fewer are pending. */
  lemma PendingBytesKeepTransmitting(s: Sys, acts: seq<Action>)
    requires BytesPend(s) && Legal(s, acts) && forall i :: 0 <= i < |acts| ==> LeavesWriter(acts[i])
    ensures var t := Exec(s, acts);
      && t.tx.accepted == s.tx.accepted && |s.tx.sent| <= |t.tx.sent|
      && (t.tx.outIx != t.tx.inIx ==> t.tx.we)
      && (|t.tx.sent| == |s.tx.sent| && s.tx.wspace > 0 ==> Raised(t))
      && (ServedWrite(acts) && t.isr.Off? ==> |s.tx.sent| < |t.tx.sent|)
  {
    hide Inv, LeavesWriter, ServedWrite;
    WriterWaits(s, acts);
    PendSees(s, Exec(s, acts));
  }

  // ---------------------------------------------------------------- the interrupt routine ends

  function Work(s: Sys): int {
    (if s.rx.re then 1 else 0) + (if s.tx.we then 1 else 0) + |s.rx.fifo| + s.tx.wspace
  }

  /** How much is left to do in the pass under way. A pass that has already used up work may start
      another one; a pass that has not is bound to use some up before it ends. */
  function PassRank(i: Isr): nat {
    match i
    case Off => 0
    case Top => 5
    case InRx(avail, _, _) => if avail then 4 else 8
    case EndRx(avail, _, _) => if avail then 3 else 7
    case InTx(space) => if space > 0 then 2 else 7
    case EndTx(space) => if space > 0 then 1 else 6
  }

  function IsrRank(s: Sys): int { 10 * Work(s) + PassRank(s.isr) }

  predicate IsrAction(a: Action) {
    a.IsrControl? || a.IsrRxStep? || a.IsrRxEnd? || a.IsrTxStep? || a.IsrTxEnd?
  }

  lemma IsrStepUsesRank(s: Sys, a: Action)
    requires Inv(s) && Enabled(s, a) && IsrAction(a)
    ensures 0 <= IsrRank(Apply(s, a)) < IsrRank(s)
  {
    hide Inv;
    StepKeeps(s, a);
    InvSays(s);
    InvSays(Apply(s, a));
  }

  lemma InvSays(s: Sys)
    requires Inv(s)
    ensures IsrInv(s.rx, s.tx, s.isr) && 0 <= s.tx.wspace
  {
  }

  /** Host and device only ever add work. */
  lemma HostAddsWork(s: Sys, a: Action)
    requires a.Arrive? || a.HostTakes?
    ensures IsrRank(s) <= IsrRank(Apply(s, a))
  {
    if a.Arrive? {
      assert |s.rx.fifo + [a.b]| == |s.rx.fifo| + 1;
    }
  }

  /** With no arrivals and no host draining in between, the routine takes at most IsrRank(s) steps... */
  lemma {:induction false} IsrBounded(s: Sys, acts: seq<Action>)
    requires Inv(s) && Legal(s, acts) && forall a :: a in acts ==> IsrAction(a)
    ensures Inv(Exec(s, acts)) && 0 <= IsrRank(Exec(s, acts)) <= IsrRank(s) - |acts|
    decreases |acts|
  {
    if acts == [] {
    } else {
      var n := |acts| - 1;
      IsrBounded(s, acts[..n]);
      assert IsrAction(acts[n]);
      IsrStepUsesRank(Exec(s, acts[..n]), acts[n]);
      StepKeeps(Exec(s, acts[..n]), acts[n]);
    }
  }

  /** ...and it is never stuck before it returns, so it does return. */
  lemma IsrNeverStuck(s: Sys, ri: bool, wi: bool)
    requires Inv(s) && !s.isr.Off?
    requires ri ==> s.rx.re && s.rx.fifo != []
    requires wi ==> s.tx.we && s.tx.wspace > 0
    ensures Enabled(s, IsrControl(ri, wi)) || exists a :: IsrAction(a) && Enabled(s, a)
    ensures !s.isr.Top? ==> exists a :: IsrAction(a) && !a.IsrControl? && Enabled(s, a)
  {
    assert IsrAction(IsrRxStep) && IsrAction(IsrRxEnd) && IsrAction(IsrTxStep) && IsrAction(IsrTxEnd);
    assert Enabled(s, IsrControl(ri, wi)) || Enabled(s, IsrRxStep) || Enabled(s, IsrRxEnd)
        || Enabled(s, IsrTxStep) || Enabled(s, IsrTxEnd);
  }

  // ---------------------------------------------------------------- host inactivity

  /** A timeout of INT_MAX or INT_MAX - 1 is never reached, in any run. */
  lemma LargeTimeoutNeverReached(start: Sys, acts: seq<Action>)
    requires Initial(start) && Legal(start, acts)
    ensures var h := Exec(start, acts).host;
      h.inactive <= INT_MAX - 2 && (h.timeout >= INT_MAX - 1 ==> h.inactive < h.timeout)
  {
    InvAlways(start, acts);
  }

  /** How many one-second checks have found no host since one found it last. */
  ghost function SilentSeconds(acts: seq<Action>): nat
    decreases |acts|
  {
    if acts == [] then 0
    else var n := |acts| - 1;
      if acts[n] == SecondTick(true) then 0
      else SilentSeconds(acts[..n]) + if acts[n] == SecondTick(false) then 1 else 0
  }

  lemma InactiveStep(s: Sys, a: Action)
    requires Enabled(s, a) && s.host.inactive <= INT_MAX - 2
    ensures Apply(s, a).host.inactive
         == if a == SecondTick(true) then 0
            else if a == SecondTick(false) then Min(s.host.inactive + 1, INT_MAX - 2) else s.host.inactive
  {
  }

  /** In every run host_inactive counts the seconds without a host, up to INT_MAX - 2. */
  lemma {:induction false} SilenceIsCounted(start: Sys, acts: seq<Action>)
    requires Initial(start) && Legal(start, acts)
    ensures Exec(start, acts).host.inactive == Min(SilentSeconds(acts), INT_MAX - 2)
    decreases |acts|
  {
    if acts != [] {
      hide Apply, Enabled;
      var n := |acts| - 1;
      SilenceIsCounted(start, acts[..n]);
      InactiveStep(Exec(start, acts[..n]), acts[n]);
    }
  }

  /** At some moment between the end of the run `earlier` and that of `later`, the host had not been seen for
      `timeout` seconds. */
  ghost predicate FoundSilent(earlier: seq<Action>, later: seq<Action>, timeout: nat) {
    exists k :: |earlier| <= k <= |later| && SilentSeconds(later[..k]) >= timeout
  }

  lemma SilentNow(start: Sys, earlier: seq<Action>, now: seq<Action>, s: Sys, later: seq<Action>)
    requires Reached(start, now, s) && earlier <= now <= later && s.host.inactive >= s.host.timeout
    ensures FoundSilent(earlier, later, s.host.timeout)
  {
    SilenceIsCounted(start, now);
    assert later[..|now|] == now;
  }

  lemma SilentWithin(first: seq<Action>, earlier: seq<Action>, later: seq<Action>, last: seq<Action>, timeout: nat)
    requires FoundSilent(earlier, later, timeout) && first <= earlier && later <= last
    ensures FoundSilent(first, last, timeout)
  {
    var k :| |earlier| <= k <= |later| && SilentSeconds(later[..k]) >= timeout;
    assert last[..k] == later[..k];
  }

  lemma TimeoutStep(s: Sys, a: Action)
    requires Enabled(s, a)
    ensures Apply(s, a).host.timeout
         == if a.SetTimeout? then NewTimeout(s.host.timeout, a.requested) else s.host.timeout
  {
  }

  /** Once the timeout is INT_MAX it stays INT_MAX, whatever is requested later. */
  lemma {:induction false} InfiniteTimeoutIsPermanent(start: Sys, acts: seq<Action>, k: nat)
    requires Legal(start, acts) && k <= |acts| && Legal(start, acts[..k])
    requires Exec(start, acts[..k]).host.timeout == INT_MAX
    ensures Exec(start, acts).host.timeout == INT_MAX
    decreases |acts|
  {
    hide Apply, Enabled;
    if k == |acts| {
      assert acts[..k] == acts;
    } else {
      var n := |acts| - 1;
      assert acts[..n][..k] == acts[..k];
      InfiniteTimeoutIsPermanent(start, acts[..n], k);
      TimeoutStep(Exec(start, acts[..n]), acts[n]);
    }
  }
}
