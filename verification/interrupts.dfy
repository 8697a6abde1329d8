/** The two interrupt handlers of the I2C slave. Each reads the status
    registers once and then handles the raised flags in a fixed order,
    returning at the first failure.

    `EventStep` and `ErrorStep` are the handlers' specifications over the
    bridge's abstract value; `HandleEventInterrupt` and
    `HandleErrorInterrupt` are the handlers themselves, written against the
    `Bridge` object and proved to behave as their specification says. */
module Interrupts {
  import opened Types
  import opened Deques
  import opened Bridges

  /** The flags of the two status registers (SR1, and SR2's TRA and GENCALL)
      as read at the start of a handler. */
  datatype Flags = Flags(
    txe: bool, rxne: bool, addr: bool, btf: bool, stopf: bool,
    af: bool, berr: bool, arlo: bool, ovr: bool, pecerr: bool, timeout: bool, alert: bool,
    tra: bool, gencall: bool)

  /** The bridge after one flag has been handled, and whether the handler
      returned there. */
  datatype Phase = Phase(view: BridgeView, returned: bool)

  /** The bridge after the event handler, and the byte written to the data
      register, if any. */
  datatype EventResult = EventResult(view: BridgeView, dataOut: Option<byte>)

  // ---------------------------------------------------------------------
  // Specification of the event interrupt, flag by flag

  /** ADDR: a new transfer addressed to us (or a repeated start). */
  function AddrPhase(v: BridgeView, f: Flags): (p: Phase)
    requires v.Valid()
    ensures p.view.Valid()
    ensures p.returned <==> v.state.Transmitting()
    ensures !p.returned ==> p.view.state == (if f.tra then TxInitial else Rx) && p.view.enabled == v.enabled
  {
    if v.state.Transmitting() then
      Phase(v.Fail(Protocol(AddrDuringTransmission)), true)
    else
      var v1 := v.SetState(if f.tra then TxInitial else Rx);
      var v2 := if v.state == Rx then v1.Notify(Event.Control(Received(|v1.received|, f.tra))) else v1;
      Phase(v2.Notify(Event.Notification(Addr(f.tra, f.gencall))), false)
  }

  /** RXNE: a byte `dr` arrived in the data register. */
  function RxnePhase(v: BridgeView, dr: byte): (p: Phase)
    requires v.Valid()
    ensures p.view.Valid()
    ensures p.returned <==> v.state != Rx || |v.received| == v.rxCapacity
    ensures !p.returned ==> p.view.received == v.received + [dr] && p.view.channel == v.channel
  {
    if v.state != Rx then
      Phase(v.Fail(Protocol(RxneWhileNotReceiving)), true)
    else
      var w := v.WriteRxByte(dr);
      if w.1.Err? then Phase(w.0.Fail(ReceiveBufferFull), true) else Phase(w.0, false)
  }

  /** TXE: the data register wants a byte. Returns the phase and the byte
      written to the data register. */
  function TxePhase(v: BridgeView, btf: bool): (r: (Phase, Option<byte>))
    requires v.Valid()
    ensures r.0.view.Valid()
    ensures r.0.returned <==> !v.state.Transmitting()
    ensures r.1.Some? ==> v.txPos < |v.txBytes| && r.1.value == v.txBytes[v.txPos] && r.0.view.txPos == v.txPos + 1
  {
    var initial := v.state == TxInitial;
    if !v.state.Transmitting() then
      (Phase(v.Fail(Protocol(TxeWhileNotTranseiving)), true), None)
    else if !(initial || btf) then
      (Phase(v.LockTx(TxOnly), false), None)
    else
      var w := v.PopTxByte();
      if w.1.None? then
        (Phase(w.0.LockTx(TxAndBtf).Notify(Event.Control(TxEmpty(initial))), false), None)
      else
        (Phase(if initial then w.0.SetState(TxRepeated) else w.0, false), w.1)
  }

  /** STOPF: the master ended the transfer. The peripheral is re-enabled
      first. */
  function StopPhase(v: BridgeView): (p: Phase)
    requires v.Valid()
    ensures p.view.Valid()
    ensures p.returned <==> v.state.Transmitting()
    ensures !p.returned ==> p.view.state == Idle && p.view.enabled
  {
    var v0 := v.EnablePeripheral();
    if v.state.Transmitting() then
      Phase(v0.Fail(Protocol(StopDuringTransmission)), true)
    else if v.state == Idle then
      Phase(v0, false)
    else
      var v1 := if v.state == Rx then v0.Notify(Event.Control(Received(|v0.received|, false))) else v0;
      Phase(v1.SetState(Idle).Notify(Event.Notification(Stop)), false)
  }

  /** The whole event interrupt: TXE together with RXNE first, then ADDR,
      RXNE, TXE and STOPF, returning at the first failure. */
  function EventStep(v: BridgeView, f: Flags, dr: byte): (r: EventResult)
    requires v.Valid()
    ensures r.view.Valid()
    ensures r.dataOut.Some? ==> f.txe && !f.rxne
  {
    if f.txe && f.rxne then
      EventResult(v.Fail(Protocol(RxneAndTxne)), None)
    else
      var p1 := if f.addr then AddrPhase(v, f) else Phase(v, false);
      if p1.returned then EventResult(p1.view, None) else
      var p2 := if f.rxne then RxnePhase(p1.view, dr) else p1;
      if p2.returned then EventResult(p2.view, None) else
      var t := if f.txe then TxePhase(p2.view, f.btf) else (p2, None);
      if t.0.returned then EventResult(t.0.view, t.1) else
      var p4 := if f.stopf then StopPhase(t.0.view) else t.0;
      EventResult(p4.view, t.1)
  }

  // ---------------------------------------------------------------------
  // Specification of the error interrupt

  /** AF: the master did not acknowledge the last byte, ending a read. */
  function AfPhase(v: BridgeView): (p: Phase)
    requires v.Valid()
    ensures p.view.Valid()
    ensures p.returned <==> !v.state.Transmitting()
    ensures !p.returned ==> p.view.state == Nack && p.view.txPos == |p.view.txBytes| == 0
  {
    if v.state.Transmitting() then
      var v1 := v.SetState(Nack);
      var w := v1.ResetTx();
      Phase(w.0.Notify(Event.Notification(Sent(w.1))), false)
    else
      Phase(v.Fail(Protocol(NackWhileNotTranseiving)), true)
  }

  /** One arm of the error table: a raised flag reports its own failure. */
  function FailOn(v: BridgeView, raised: bool, e: I2CError): (w: BridgeView)
    requires v.Valid()
    ensures w.Valid()
    ensures raised <==> |w.channel| == |v.channel| + 1
    ensures w.(enabled := v.enabled, channel := v.channel) == v
  {
    if raised then v.Fail(I2C(e)) else v
  }

  /** After AF: BERR is only cleared; each of the other error flags that is
      set reports its own failure, in this order, without returning. */
  function OtherErrors(v: BridgeView, f: Flags): (w: BridgeView)
    requires v.Valid()
    ensures w.Valid()
    ensures w.(enabled := v.enabled, channel := v.channel) == v
    ensures !(f.arlo || f.ovr || f.pecerr || f.timeout || f.alert) ==> w == v
  {
    var v1 := FailOn(v, f.arlo, ArbitrationLoss);
    var v2 := FailOn(v1, f.ovr, Overrun);
    var v3 := FailOn(v2, f.pecerr, PecError);
    var v4 := FailOn(v3, f.timeout, Timeout);
    FailOn(v4, f.alert, SmBusAlert)
  }

  /** The whole error interrupt: AF first, returning if it fails, then the
      other error flags. */
  function ErrorStep(v: BridgeView, f: Flags): (w: BridgeView)
    requires v.Valid()
    ensures w.Valid()
    ensures w.received == v.received && w.txLock == v.txLock
    ensures w.rxCapacity == v.rxCapacity && w.txCapacity == v.txCapacity
  {
    var p := if f.af then AfPhase(v) else Phase(v, false);
    if p.returned then p.view else OtherErrors(p.view, f)
  }

  // ---------------------------------------------------------------------
  // Properties of the event interrupt

  /** TXE together with RXNE is a protocol error and nothing else happens. */
  lemma RxneAndTxneOnlyFails(v: BridgeView, f: Flags, dr: byte)
    requires v.Valid() && f.txe && f.rxne
    ensures EventStep(v, f, dr) == EventResult(v.Fail(Protocol(RxneAndTxne)), None)
  {
  }

  /** ADDR outside a transmission starts a transfer in the direction TRA
      gives, reports the bytes received so far when it ends a reception, and
      then reports the address match; buffers, lock and enable bit are
      untouched. */
  lemma AddrStartsTransfer(v: BridgeView, f: Flags)
    requires v.Valid() && !v.state.Transmitting()
    ensures var p := AddrPhase(v, f);
      var s := if f.tra then TxInitial else Rx;
      && !p.returned
      && p.view.state == s
      && p.view.stateHistory == PushBounded(v.stateHistory, s, STATES_HISTORY_SIZE)
      && p.view.channel == v.channel
           + (if v.state == Rx then [Ok(Event.Control(Received(|v.received|, f.tra)))] else [])
           + [Ok(Event.Notification(Addr(f.tra, f.gencall)))]
      && p.view.(state := v.state, stateHistory := v.stateHistory,
                 eventsHistory := v.eventsHistory, channel := v.channel) == v
  {
  }

  /** ADDR during a transmission fails and stops the handler: no later flag
      is looked at. */
  lemma AddrDuringTransmissionStops(v: BridgeView, f: Flags, dr: byte)
    requires v.Valid() && f.addr && !(f.txe && f.rxne) && v.state.Transmitting()
    ensures EventStep(v, f, dr) == EventResult(v.Fail(Protocol(AddrDuringTransmission)), None)
  {
  }

  /** RXNE is accepted only while receiving: the byte is appended, or a full
      buffer fails with ReceiveBufferFull and keeps its contents. In any other
      state RXNE is a protocol error. */
  lemma RxneOnlyWhileReceiving(v: BridgeView, dr: byte)
    requires v.Valid()
    ensures var p := RxnePhase(v, dr);
      && (v.state == Rx && |v.received| < v.rxCapacity ==>
            !p.returned && p.view == v.(received := v.received + [dr]))
      && (v.state == Rx && |v.received| == v.rxCapacity ==>
            p.returned && p.view == v.Fail(ReceiveBufferFull))
      && (v.state != Rx ==>
            p.returned && p.view == v.Fail(Protocol(RxneWhileNotReceiving)))
  {
  }

  /** TXE while transmitting: at the first byte or once BTF is set, one byte
      is popped and written out (the first one moves TxInitial to
      TxRepeated); with nothing to pop the interrupts are locked until BTF
      and TxEmpty is reported. Before BTF only the lock is taken. */
  lemma TxeTransmits(v: BridgeView, btf: bool)
    requires v.Valid() && v.state.Transmitting()
    ensures var r := TxePhase(v, btf);
      var initial := v.state == TxInitial;
      && !r.0.returned
      && (!initial && !btf ==>
            r.1 == None && r.0.view == v.(txLock := Locked(TxOnly)))
      && ((initial || btf) && v.txPos < |v.txBytes| ==>
            && r.1 == Some(v.txBytes[v.txPos])
            && r.0.view == (var w := v.(txPos := v.txPos + 1); if initial then w.SetState(TxRepeated) else w))
      && ((initial || btf) && v.txPos == |v.txBytes| ==>
            && r.1 == None
            && r.0.view == v.(txLock := Locked(TxAndBtf)).Notify(Event.Control(TxEmpty(initial))))
  {
  }

  lemma TxeWhileNotTransmittingFails(v: BridgeView, btf: bool)
    requires v.Valid() && !v.state.Transmitting()
    ensures TxePhase(v, btf) == (Phase(v.Fail(Protocol(TxeWhileNotTranseiving)), true), None)
  {
  }

  /** STOPF re-enables the peripheral. Idle stays Idle silently; Rx reports
      the received size and then, like Nack, goes to Idle and reports Stop.
      During a transmission it is a protocol error. */
  lemma StopEndsTransfer(v: BridgeView)
    requires v.Valid()
    ensures var p := StopPhase(v);
      && (v.state == Idle ==> !p.returned && p.view == v.(enabled := true))
      && (v.state == Rx || v.state == Nack ==>
            && !p.returned
            && p.view.state == Idle && p.view.enabled
            && p.view.channel == v.channel
                 + (if v.state == Rx then [Ok(Event.Control(Received(|v.received|, false)))] else [])
                 + [Ok(Event.Notification(Stop))]
            && p.view.stateHistory == PushBounded(v.stateHistory, Idle, STATES_HISTORY_SIZE)
            && p.view.eventsHistory == PushBounded(
                 if v.state == Rx
                 then PushBounded(v.eventsHistory, Event.Control(Received(|v.received|, false)), EVENTS_HISTORY_SIZE)
                 else v.eventsHistory,
                 Event.Notification(Stop), EVENTS_HISTORY_SIZE)
            && p.view.(state := v.state, stateHistory := v.stateHistory, eventsHistory := v.eventsHistory,
                       channel := v.channel, enabled := v.enabled) == v)
      && (v.state.Transmitting() ==>
            p.returned && p.view == v.(enabled := true).Fail(Protocol(StopDuringTransmission)))
  {
  }

  /** The reports of a handler so far: `after` extends `before` by successes
      only. */
  ghost predicate ExtendsWithOks(before: seq<Result<Event, Error>>, after: seq<Result<Event, Error>>)
  {
    && |before| <= |after|
    && after[..|before|] == before
    && forall i :: |before| <= i < |after| ==> after[i].Ok?
  }

  /** `after` extends `before` by successes and then exactly one failure. */
  ghost predicate ExtendsThenFails(before: seq<Result<Event, Error>>, after: seq<Result<Event, Error>>)
  {
    && |before| < |after|
    && ExtendsWithOks(before, after[..|after| - 1])
    && after[|after| - 1].Err?
  }

  ghost predicate PhaseReports(v: BridgeView, p: Phase)
  {
    if p.returned then ExtendsThenFails(v.channel, p.view.channel)
    else ExtendsWithOks(v.channel, p.view.channel)
  }

  lemma ExtendsWithOksTrans(a: seq<Result<Event, Error>>, b: seq<Result<Event, Error>>, c: seq<Result<Event, Error>>)
    requires ExtendsWithOks(a, b)
    ensures ExtendsWithOks(b, c) ==> ExtendsWithOks(a, c)
    ensures ExtendsThenFails(b, c) ==> ExtendsThenFails(a, c)
  {
    if ExtendsWithOks(b, c) {
      assert c[..|a|] == c[..|b|][..|a|];
    }
    if ExtendsThenFails(b, c) {
      var c' := c[..|c| - 1];
      assert c'[..|a|] == c'[..|b|][..|a|];
    }
  }

  lemma FailPhaseReports(v: BridgeView, reason: Reason)
    requires v.Valid()
    ensures PhaseReports(v, Phase(v.Fail(reason), true))
  {
    var c := v.Fail(reason).channel;
    assert c[..|c| - 1] == v.channel;
  }

  lemma NotifyReports(v: BridgeView, e: Event)
    requires v.Valid()
    ensures ExtendsWithOks(v.channel, v.Notify(e).channel)
  {
    assert v.Notify(e).channel[..|v.channel|] == v.channel;
  }

  lemma AddrPhaseReports(v: BridgeView, f: Flags)
    requires v.Valid()
    ensures PhaseReports(v, AddrPhase(v, f))
  {
    if v.state.Transmitting() {
      FailPhaseReports(v, Protocol(AddrDuringTransmission));
    } else {
      var v1 := v.SetState(if f.tra then TxInitial else Rx);
      var e := Event.Control(Received(|v1.received|, f.tra));
      var v2 := if v.state == Rx then v1.Notify(e) else v1;
      if v.state == Rx {
        NotifyReports(v1, e);
      }
      NotifyReports(v2, Event.Notification(Addr(f.tra, f.gencall)));
      ExtendsWithOksTrans(v.channel, v2.channel, AddrPhase(v, f).view.channel);
    }
  }

  lemma RxnePhaseReports(v: BridgeView, dr: byte)
    requires v.Valid()
    ensures PhaseReports(v, RxnePhase(v, dr))
  {
    if v.state != Rx {
      FailPhaseReports(v, Protocol(RxneWhileNotReceiving));
    } else if |v.received| == v.rxCapacity {
      FailPhaseReports(v, ReceiveBufferFull);
    }
  }

  lemma TxePhaseReports(v: BridgeView, btf: bool)
    requires v.Valid()
    ensures PhaseReports(v, TxePhase(v, btf).0)
  {
    if !v.state.Transmitting() {
      FailPhaseReports(v, Protocol(TxeWhileNotTranseiving));
    } else if (v.state == TxInitial || btf) && v.txPos == |v.txBytes| {
      NotifyReports(v.LockTx(TxAndBtf), Event.Control(TxEmpty(v.state == TxInitial)));
    }
  }

  lemma StopPhaseReports(v: BridgeView)
    requires v.Valid()
    ensures PhaseReports(v, StopPhase(v))
  {
    var v0 := v.EnablePeripheral();
    if v.state.Transmitting() {
      FailPhaseReports(v0, Protocol(StopDuringTransmission));
    } else if v.state != Idle {
      var e := Event.Control(Received(|v0.received|, false));
      var v1 := if v.state == Rx then v0.Notify(e) else v0;
      if v.state == Rx {
        NotifyReports(v0, e);
      }
      var v2 := v1.SetState(Idle);
      NotifyReports(v2, Event.Notification(Stop));
      ExtendsWithOksTrans(v.channel, v2.channel, StopPhase(v).view.channel);
    }
  }

  ghost predicate AtMostOneFailure(before: seq<Result<Event, Error>>, after: seq<Result<Event, Error>>)
  {
    ExtendsWithOks(before, after) || ExtendsThenFails(before, after)
  }

  lemma AtMostOneFailureMeans(a: seq<Result<Event, Error>>, c: seq<Result<Event, Error>>)
    requires AtMostOneFailure(a, c)
    ensures |a| <= |c| && c[..|a|] == a
    ensures forall i :: |a| <= i < |c| - 1 ==> c[i].Ok?
  {
    if ExtendsThenFails(a, c) {
      assert c[..|a|] == c[..|c| - 1][..|a|];
    }
  }

  lemma StopStageReports(c: seq<Result<Event, Error>>, t: Phase, f: Flags)
    requires t.view.Valid() && ExtendsWithOks(c, t.view.channel)
    ensures AtMostOneFailure(c, (if f.stopf then StopPhase(t.view) else t).view.channel)
  {
    if f.stopf {
      StopPhaseReports(t.view);
      ExtendsWithOksTrans(c, t.view.channel, StopPhase(t.view).view.channel);
    }
  }

  lemma TxeStageReports(c: seq<Result<Event, Error>>, p2: Phase, f: Flags)
    requires p2.view.Valid() && ExtendsWithOks(c, p2.view.channel)
    ensures var t := if f.txe then TxePhase(p2.view, f.btf) else (p2, None);
      AtMostOneFailure(c, if t.0.returned then t.0.view.channel
                          else (if f.stopf then StopPhase(t.0.view) else t.0).view.channel)
  {
    var t := if f.txe then TxePhase(p2.view, f.btf) else (p2, None);
    if f.txe { TxePhaseReports(p2.view, f.btf); }
    ExtendsWithOksTrans(c, p2.view.channel, t.0.view.channel);
    if !t.0.returned {
      StopStageReports(c, t.0, f);
    }
  }

  lemma RxneStageReports(c: seq<Result<Event, Error>>, p1: Phase, f: Flags, dr: byte)
    requires p1.view.Valid() && ExtendsWithOks(c, p1.view.channel)
    ensures var p2 := if f.rxne then RxnePhase(p1.view, dr) else p1;
      var t := if f.txe then TxePhase(p2.view, f.btf) else (p2, None);
      AtMostOneFailure(c, if p2.returned then p2.view.channel
                          else if t.0.returned then t.0.view.channel
                          else (if f.stopf then StopPhase(t.0.view) else t.0).view.channel)
  {
    var p2 := if f.rxne then RxnePhase(p1.view, dr) else p1;
    if f.rxne { RxnePhaseReports(p1.view, dr); }
    ExtendsWithOksTrans(c, p1.view.channel, p2.view.channel);
    if !p2.returned {
      TxeStageReports(c, p2, f);
    }
  }

  lemma EventStepReports(v: BridgeView, f: Flags, dr: byte)
    requires v.Valid()
    ensures AtMostOneFailure(v.channel, EventStep(v, f, dr).view.channel)
  {
    if f.txe && f.rxne {
      FailPhaseReports(v, Protocol(RxneAndTxne));
    } else {
      var p1 := if f.addr then AddrPhase(v, f) else Phase(v, false);
      if f.addr { AddrPhaseReports(v, f); }
      if !p1.returned {
        RxneStageReports(v.channel, p1, f, dr);
      }
    }
  }

  /** Every failure ends the event handler: whatever the flags, it only
      appends to the channel, and of what it appends only the last report
      can be a failure. */
  lemma EventHandlerFailsAtMostOnce(v: BridgeView, f: Flags, dr: byte)
    requires v.Valid()
    ensures var c := EventStep(v, f, dr).view.channel;
      && |v.channel| <= |c| && c[..|v.channel|] == v.channel
      && forall i :: |v.channel| <= i < |c| - 1 ==> c[i].Ok?
  {
    EventStepReports(v, f, dr);
    AtMostOneFailureMeans(v.channel, EventStep(v, f, dr).view.channel);
  }

  // ---------------------------------------------------------------------
  // Properties of the error interrupt

  /** AF while transmitting ends the read: state Nack, the send buffer
      emptied, and Sent reports how many bytes were popped since the last
      write. */
  lemma AckFailureEndsRead(v: BridgeView)
    requires v.Valid() && v.state.Transmitting()
    ensures var p := AfPhase(v);
      && !p.returned
      && p.view.state == Nack
      && p.view.txBytes == [] && p.view.txPos == 0
      && p.view.channel == v.channel + [Ok(Event.Notification(Sent(v.txPos)))]
      && p.view.received == v.received && p.view.txLock == v.txLock && p.view.enabled == v.enabled
  {
  }

  /** AF outside a transmission fails and stops the handler, so the other
      error flags are not looked at. */
  lemma AckFailureWhileNotTransmittingStops(v: BridgeView, f: Flags)
    requires v.Valid() && f.af && !v.state.Transmitting()
    ensures ErrorStep(v, f) == v.Fail(Protocol(NackWhileNotTranseiving))
  {
  }

  /** The I2C errors whose flags are set, in the order they are handled. */
  function RaisedErrors(f: Flags): seq<I2CError>
  {
    (if f.arlo then [ArbitrationLoss] else [])
    + (if f.ovr then [Overrun] else [])
    + (if f.pecerr then [PecError] else [])
    + (if f.timeout then [Timeout] else [])
    + (if f.alert then [SmBusAlert] else [])
  }

  /** One failure report per error, all with the same snapshot. */
  function Failures(d: StateDump, es: seq<I2CError>): (r: seq<Result<Event, Error>>)
    ensures |r| == |es|
    ensures forall i :: 0 <= i < |es| ==> r[i] == Err(Error(d, I2C(es[i])))
  {
    if es == [] then [] else [Err(Error(d, I2C(es[0])))] + Failures(d, es[1..])
  }

  lemma FailuresAppend(d: StateDump, a: seq<I2CError>, b: seq<I2CError>)
    ensures Failures(d, a + b) == Failures(d, a) + Failures(d, b)
  {
  }

  /** `v` after the failures `es`, all carrying the snapshot `d`. */
  function Reported(v: BridgeView, d: StateDump, es: seq<I2CError>): BridgeView
  {
    v.(enabled := v.enabled && es == [], channel := v.channel + Failures(d, es))
  }

  lemma ReportStep(v: BridgeView, d: StateDump, w: BridgeView, es: seq<I2CError>, c: bool, e: I2CError)
    requires v.Valid() && d == v.Dump() && w == Reported(v, d, es)
    ensures w.Valid()
    ensures FailOn(w, c, e) == Reported(v, d, es + (if c then [e] else []))
  {
    if c {
      assert w.Dump() == d;
      FailuresAppend(d, es, [e]);
    } else {
      assert es + [] == es;
    }
  }

  /** Once AF is dealt with, BERR is only cleared and each other raised error
      is reported once, in the order ARLO, OVR, PECERR, TIMEOUT, ALERT, with
      no early return; any report disables the peripheral. */
  lemma OtherErrorsReportEach(v: BridgeView, f: Flags)
    requires v.Valid()
    ensures OtherErrors(v, f) == Reported(v, v.Dump(), RaisedErrors(f))
  {
    var d := v.Dump();
    var a := if f.arlo then [ArbitrationLoss] else [];
    var b := a + if f.ovr then [Overrun] else [];
    var c := b + if f.pecerr then [PecError] else [];
    var t := c + if f.timeout then [Timeout] else [];
    var l := t + if f.alert then [SmBusAlert] else [];
    assert Reported(v, d, []) == v;
    ReportStep(v, d, v, [], f.arlo, ArbitrationLoss);
    assert [] + a == a;
    var v1 := FailOn(v, f.arlo, ArbitrationLoss);
    ReportStep(v, d, v1, a, f.ovr, Overrun);
    var v2 := FailOn(v1, f.ovr, Overrun);
    ReportStep(v, d, v2, b, f.pecerr, PecError);
    var v3 := FailOn(v2, f.pecerr, PecError);
    ReportStep(v, d, v3, c, f.timeout, Timeout);
    var v4 := FailOn(v3, f.timeout, Timeout);
    ReportStep(v, d, v4, t, f.alert, SmBusAlert);
    assert RaisedErrors(f) == l;
  }

  /** With AF clear and no other error flag raised but BERR, the error
      handler changes nothing. */
  lemma BusErrorOnlyCleared(v: BridgeView, f: Flags)
    requires v.Valid() && !f.af && RaisedErrors(f) == []
    ensures ErrorStep(v, f) == v
  {
    OtherErrorsReportEach(v, f);
  }

  // ---------------------------------------------------------------------
  // The handlers

  method HandleEventInterrupt(bridge: Bridge, f: Flags, dr: byte) returns (dataOut: Option<byte>)
    requires bridge.Valid()
    modifies bridge.Repr()
    ensures bridge.Valid()
    ensures EventResult(bridge.View(), dataOut) == EventStep(old(bridge.View()), f, dr)
  {
    dataOut := None;
    if f.txe && f.rxne {
      bridge.Fail(Protocol(RxneAndTxne));
      return;
    }
    var returned := false;
    if f.addr {
      returned := HandleAddr(bridge, f);
      if returned {
        return;
      }
    }
    if f.rxne {
      returned := HandleRxne(bridge, dr);
      if returned {
        return;
      }
    }
    if f.txe {
      returned, dataOut := HandleTxe(bridge, f.btf);
      if returned {
        return;
      }
    }
    if f.stopf {
      returned := HandleStop(bridge);
    }
  }

  method HandleAddr(bridge: Bridge, f: Flags) returns (returned: bool)
    requires bridge.Valid()
    modifies bridge.Repr()
    ensures bridge.Valid()
    ensures Phase(bridge.View(), returned) == AddrPhase(old(bridge.View()), f)
  {
    var state := bridge.GetState();
    if state.Transmitting() {
      bridge.Fail(Protocol(AddrDuringTransmission));
      return true;
    }
    var transmission := f.tra;
    bridge.SetState(if transmission then TxInitial else Rx);
    if state == Rx {
      var size := bridge.GetRxbufSize();
      bridge.Notify(Event.Control(Received(size, transmission)));
    }
    bridge.Notify(Event.Notification(Addr(transmission, f.gencall)));
    returned := false;
  }

  method HandleRxne(bridge: Bridge, dr: byte) returns (returned: bool)
    requires bridge.Valid()
    modifies bridge.Repr()
    ensures bridge.Valid()
    ensures Phase(bridge.View(), returned) == RxnePhase(old(bridge.View()), dr)
  {
    if bridge.GetState() != Rx {
      bridge.Fail(Protocol(RxneWhileNotReceiving));
      return true;
    }
    var res := bridge.WriteRxbufByte(dr);
    if res.Err? {
      bridge.Fail(ReceiveBufferFull);
      return true;
    }
    returned := false;
  }

  method HandleTxe(bridge: Bridge, btf: bool) returns (returned: bool, dataOut: Option<byte>)
    requires bridge.Valid()
    modifies bridge.Repr()
    ensures bridge.Valid()
    ensures (Phase(bridge.View(), returned), dataOut) == TxePhase(old(bridge.View()), btf)
  {
    var state := bridge.GetState();
    returned, dataOut := false, None;
    if !state.Transmitting() {
      bridge.Fail(Protocol(TxeWhileNotTranseiving));
      return true, None;
    }
    var initial := state == TxInitial;
    if initial || btf {
      var optbyte := bridge.PopTxbufByte();
      if optbyte.Some? {
        dataOut := optbyte;
        if initial {
          bridge.SetState(TxRepeated);
        }
      } else {
        bridge.LockTx(TxAndBtf);
        bridge.Notify(Event.Control(TxEmpty(initial)));
      }
    } else {
      // waiting for BTF
      bridge.LockTx(TxOnly);
    }
  }

  method HandleStop(bridge: Bridge) returns (returned: bool)
    requires bridge.Valid()
    modifies bridge.Repr()
    ensures bridge.Valid()
    ensures Phase(bridge.View(), returned) == StopPhase(old(bridge.View()))
  {
    bridge.enabled := true;
    var state := bridge.GetState();
    if state.Transmitting() {
      bridge.Fail(Protocol(StopDuringTransmission));
      return true;
    }
    if state == Rx {
      var size := bridge.GetRxbufSize();
      bridge.Notify(Event.Control(Received(size, false)));
    }
    if state != Idle {
      bridge.SetState(Idle);
      bridge.Notify(Event.Notification(Stop));
    }
    returned := false;
  }

  method HandleErrorInterrupt(bridge: Bridge, f: Flags)
    requires bridge.Valid()
    modifies bridge.Repr()
    ensures bridge.Valid()
    ensures bridge.View() == ErrorStep(old(bridge.View()), f)
  {
    if f.af {
      var returned := HandleAf(bridge);
      if returned {
        return;
      }
    }
    // BERR: the flag is cleared, nothing is reported
    ReportErrors(bridge, f);
  }

  method HandleAf(bridge: Bridge) returns (returned: bool)
    requires bridge.Valid()
    modifies bridge.Repr()
    ensures bridge.Valid()
    ensures Phase(bridge.View(), returned) == AfPhase(old(bridge.View()))
  {
    if !bridge.GetState().Transmitting() {
      bridge.Fail(Protocol(NackWhileNotTranseiving));
      return true;
    }
    bridge.SetState(Nack);
    var sent := bridge.ResetTxbuf();
    bridge.Notify(Event.Notification(Sent(sent)));
    returned := false;
  }

  method ReportErrors(bridge: Bridge, f: Flags)
    requires bridge.Valid()
    modifies bridge.Repr()
    ensures bridge.Valid()
    ensures bridge.View() == OtherErrors(old(bridge.View()), f)
  {
    ReportIf(bridge, f.arlo, ArbitrationLoss);
    ReportIf(bridge, f.ovr, Overrun);
    ReportIf(bridge, f.pecerr, PecError);
    ReportIf(bridge, f.timeout, Timeout);
    ReportIf(bridge, f.alert, SmBusAlert);
  }

  method ReportIf(bridge: Bridge, raised: bool, e: I2CError)
    requires bridge.Valid()
    modifies bridge.Repr()
    ensures bridge.Valid()
    ensures bridge.View() == FailOn(old(bridge.View()), raised, e)
  {
    if raised {
      bridge.Fail(I2C(e));
    }
  }
}
