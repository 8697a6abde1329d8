/** The bridge between the interrupt handlers and the application: it owns
    the transmit and receive buffers, the state holder, the bounded event
    history, the channel of reported results and the transmit lock.

    `BridgeView` is the bridge's abstract value. Its functions specify the
    `Bridge` methods: `SetState`, `Notify`, `Fail`, `LockTx` and `Write` by
    the function of the same name, `WriteRxbufByte`, `PopTxbufByte`,
    `ResetTxbuf` and `DumpState` by `WriteRxByte`, `PopTxByte`, `ResetTx`
    and `Dump`; `UnlockTx`, `GetRxbufSize` and `Read` state their effect on
    the view directly. */
module Bridges {
  import opened Types
  import opened Deques
  import opened SendBuffers
  import opened ReceiveBuffers
  import opened StateHolders

  const STATES_HISTORY_SIZE: nat := 5
  const EVENTS_HISTORY_SIZE: nat := 5

  /** The initial contents of the two snapshot arrays. */
  function IdleStates(): (r: seq<State>)
    ensures |r| == STATES_HISTORY_SIZE && forall i :: 0 <= i < |r| ==> r[i] == Idle
  {
    seq(STATES_HISTORY_SIZE, _ => Idle)
  }

  function StopEvents(): (r: seq<Event>)
    ensures |r| == EVENTS_HISTORY_SIZE && forall i :: 0 <= i < |r| ==> r[i] == Event.Notification(Stop)
  {
    seq(EVENTS_HISTORY_SIZE, _ => Event.Notification(Stop))
  }

  /** `base` with its last |d| slots replaced by `d`. */
  function RightAligned<T>(base: seq<T>, d: seq<T>): seq<T>
    requires |d| <= |base|
  {
    base[..|base| - |d|] + d
  }

  datatype BridgeView = BridgeView(
    state: State,
    stateHistory: seq<State>,
    received: seq<byte>,       // receive buffer contents
    rxCapacity: nat,
    txBytes: seq<byte>,        // the last write into the send buffer
    txPos: nat,                // how many of them were popped
    txCapacity: nat,
    eventsHistory: seq<Event>,
    channel: seq<Result<Event, Error>>,  // everything reported to the application, in order
    txLock: TxLock,
    enabled: bool)             // the peripheral-enable bit
  {
    /** The bounds the buffers and histories keep, and the current state
        being the last one recorded. */
    predicate Valid()
    {
      && |stateHistory| <= STATES_HISTORY_SIZE
      && state == (if stateHistory == [] then Idle else stateHistory[|stateHistory| - 1])
      && |received| <= rxCapacity
      && txPos <= |txBytes| <= txCapacity
      && |eventsHistory| <= EVENTS_HISTORY_SIZE
    }

    /** `set_state`: the new state, recorded last in the bounded history. */
    function SetState(s: State): (v: BridgeView)
      requires Valid()
      ensures v.Valid()
      ensures v.state == s && v.stateHistory == LastN(stateHistory + [s], STATES_HISTORY_SIZE)
    {
      this.(state := s, stateHistory := PushBounded(stateHistory, s, STATES_HISTORY_SIZE))
    }

    /** `notify`: the event is recorded in the bounded history and reported. */
    function Notify(e: Event): (v: BridgeView)
      requires Valid()
      ensures v.Valid()
      ensures v.eventsHistory == LastN(eventsHistory + [e], EVENTS_HISTORY_SIZE)
      ensures v.channel == channel + [Ok(e)]
    {
      this.(eventsHistory := PushBounded(eventsHistory, e, EVENTS_HISTORY_SIZE), channel := channel + [Ok(e)])
    }

    /** `dump_state`; `DumpRightAlignsHistories` states its layout. */
    function Dump(): StateDump
      requires Valid()
    {
      StateDump(RightAligned(IdleStates(), stateHistory), state, RightAligned(StopEvents(), eventsHistory))
    }

    /** `fail`: the peripheral is disabled and one failure is reported. */
    function Fail(reason: Reason): (v: BridgeView)
      requires Valid()
      ensures v.Valid()
      ensures !v.enabled && v.channel == channel + [Err(Error(Dump(), reason))]
    {
      this.(enabled := false, channel := channel + [Err(Error(Dump(), reason))])
    }

    /** `lock_tx`. */
    function LockTx(kind: TxLockType): (v: BridgeView)
      requires Valid()
      ensures v.Valid() && v.txLock == Locked(kind)
    {
      this.(txLock := Locked(kind))
    }

    /** Setting CR1.PE. */
    function EnablePeripheral(): (v: BridgeView)
      requires Valid()
      ensures v.Valid() && v.enabled
    {
      this.(enabled := true)
    }

    /** `write_rxbuf_byte`: refused exactly when the receive buffer is full. */
    function WriteRxByte(b: byte): (r: (BridgeView, Result<(), ()>))
      requires Valid()
      ensures r.0.Valid()
      ensures r.1.Err? <==> |received| == rxCapacity
      ensures r.1.Err? ==> r.0 == this
      ensures r.1.Ok? ==> r.0.received == received + [b]
    {
      if |received| == rxCapacity then (this, Err(())) else (this.(received := received + [b]), Ok(()))
    }

    /** `pop_txbuf_byte`: the next pending byte, if any. */
    function PopTxByte(): (r: (BridgeView, Option<byte>))
      requires Valid()
      ensures r.0.Valid()
      ensures r.1.None? <==> txPos == |txBytes|
      ensures r.1.None? ==> r.0 == this
      ensures r.1.Some? ==> r.1.value == txBytes[txPos] && r.0.txPos == txPos + 1 && r.0.txBytes == txBytes
    {
      if txPos == |txBytes| then (this, None) else (this.(txPos := txPos + 1), Some(txBytes[txPos]))
    }

    /** The application's write of a response `b`: refused when it does not
        fit or the previous response was not fully sent, otherwise loaded
        and the transmit interrupts unlocked. */
    function Write(b: seq<byte>): (r: Result<BridgeView, WritePanic>)
      requires Valid()
      ensures r.Ok? ==> r.value.Valid()
      ensures r.Err? <==> |b| > txCapacity || txPos < |txBytes|
      ensures r.Err? ==> r.error == (if |b| > txCapacity then TooMuchData else NotReset)
      ensures r.Ok? ==> r.value.txBytes[r.value.txPos..] == b && r.value.txLock == Unlocked
    {
      if |b| > txCapacity then Err(TooMuchData)
      else if txPos != |txBytes| then Err(NotReset)
      else Ok(this.(txBytes := b, txPos := 0, txLock := Unlocked))
    }

    /** `reset_txbuf`: returns how many bytes had been popped and leaves
        nothing pending. */
    function ResetTx(): (r: (BridgeView, nat))
      requires Valid()
      ensures r.0.Valid()
      ensures r.1 == txPos && r.0.txPos == |r.0.txBytes| == 0
    {
      (this.(txBytes := [], txPos := 0), txPos)
    }
  }

  /** A failure changes nothing but the enable bit, which it clears, and
      reports exactly one Err carrying `reason` and the current snapshot. */
  lemma FailReportsOnce(v: BridgeView, reason: Reason)
    requires v.Valid()
    ensures var w := v.Fail(reason);
      && w.channel == v.channel + [Err(Error(v.Dump(), reason))]
      && !w.enabled
      && w.(enabled := v.enabled, channel := v.channel) == v
      && w.Dump() == v.Dump()
  {
  }

  /** `notify` keeps the last EVENTS_HISTORY_SIZE events, newest at the back,
      dropping exactly the oldest one when the history is full, and reports
      the event once. */
  lemma NotifyKeepsLastEvents(v: BridgeView, e: Event)
    requires v.Valid()
    ensures var w := v.Notify(e);
      && w.eventsHistory == LastN(v.eventsHistory + [e], EVENTS_HISTORY_SIZE)
      && (|v.eventsHistory| == EVENTS_HISTORY_SIZE ==> w.eventsHistory == v.eventsHistory[1..] + [e])
      && (|v.eventsHistory| < EVENTS_HISTORY_SIZE ==> w.eventsHistory == v.eventsHistory + [e])
      && w.channel == v.channel + [Ok(e)]
      && w.(eventsHistory := v.eventsHistory, channel := v.channel) == v
  {
  }

  /** In a snapshot each history fills the last slots of its array, oldest
      first; the unused leading slots hold Idle and Stop. */
  lemma DumpRightAlignsHistories(v: BridgeView)
    requires v.Valid()
    ensures var d := v.Dump();
      && d.currentState == v.state
      && |d.stateHistory| == STATES_HISTORY_SIZE
      && d.stateHistory[STATES_HISTORY_SIZE - |v.stateHistory|..] == v.stateHistory
      && (forall i :: 0 <= i < STATES_HISTORY_SIZE - |v.stateHistory| ==> d.stateHistory[i] == Idle)
      && |d.eventHistory| == EVENTS_HISTORY_SIZE
      && d.eventHistory[EVENTS_HISTORY_SIZE - |v.eventsHistory|..] == v.eventsHistory
      && (forall i :: 0 <= i < EVENTS_HISTORY_SIZE - |v.eventsHistory| ==> d.eventHistory[i] == Event.Notification(Stop))
  {
  }

  /** Copies the deque `d`, given as its two slices `d[..split]` and
      `d[split..]`, into the last |d| slots of `arr`. */
  method DequeIntoArray<T>(d: seq<T>, split: nat, arr: array<T>)
    requires |d| <= arr.Length && split <= |d|
    modifies arr
    ensures arr[..] == RightAligned(old(arr[..]), d)
  {
    var a, b := d[..split], d[split..];
    var s := arr.Length - |d|;
    forall i | s <= i < s + |a| {
      arr[i] := a[i - s];
    }
    forall i | s + |a| <= i < arr.Length {
      arr[i] := b[i - s - |a|];
    }
    assert forall i :: s <= i < arr.Length ==> arr[i] == d[i - s];
    assert arr[..] == old(arr[..])[..s] + d;
  }

  class Bridge {
    const sendBuffer: SendBuffer
    const receiveBuffer: ReceiveBuffer
    const stateHolder: StateHolder
    var eventsHistory: seq<Event>
    var channel: seq<Result<Event, Error>>
    var txLock: TxLock
    var enabled: bool

    ghost function Repr(): set<object>
    {
      {this, sendBuffer, sendBuffer.buf, receiveBuffer, receiveBuffer.buf, stateHolder}
    }

    ghost predicate Valid()
      reads Repr()
    {
      && sendBuffer.Valid()
      && receiveBuffer.Valid()
      && stateHolder.Valid()
      && stateHolder.capacity == STATES_HISTORY_SIZE
      && sendBuffer.buf != receiveBuffer.buf
      && |eventsHistory| <= EVENTS_HISTORY_SIZE
    }

    ghost function View(): (v: BridgeView)
      reads Repr()
      requires Valid()
      ensures v.Valid()
    {
      BridgeView(
        stateHolder.state, stateHolder.history,
        receiveBuffer.buf[..receiveBuffer.size], receiveBuffer.buf.Length,
        sendBuffer.buf[..sendBuffer.end], sendBuffer.pos, sendBuffer.buf.Length,
        eventsHistory, channel, txLock, enabled)
    }

    /** A bridge as the slave driver finds it once the peripheral is set up:
        idle, empty buffers and histories, nothing reported, transmit
        interrupts unlocked and the peripheral enabled. */
    constructor (txCapacity: nat, rxCapacity: nat)
      ensures Valid() && fresh(sendBuffer) && fresh(sendBuffer.buf)
      ensures fresh(receiveBuffer) && fresh(receiveBuffer.buf) && fresh(stateHolder)
      ensures View() == BridgeView(Idle, [], [], rxCapacity, [], 0, txCapacity, [], [], Unlocked, true)
    {
      sendBuffer := new SendBuffer(txCapacity);
      receiveBuffer := new ReceiveBuffer(rxCapacity);
      stateHolder := new StateHolder(STATES_HISTORY_SIZE);
      eventsHistory := [];
      channel := [];
      txLock := Unlocked;
      enabled := true;
    }

    /** The state last set, or Idle if none was. */
    function GetState(): (s: State)
      reads Repr()
      requires Valid()
      ensures s == View().state
      ensures s == (if View().stateHistory == [] then Idle else View().stateHistory[|View().stateHistory| - 1])
    {
      stateHolder.GetState()
    }

    method SetState(s: State)
      requires Valid()
      modifies stateHolder
      ensures Valid() && View() == old(View()).SetState(s)
    {
      stateHolder.SetState(s);
    }

    /** The snapshot of the histories: each deque right-aligned in an array
        whose unused leading slots hold Idle and Stop respectively. */
    method DumpState() returns (d: StateDump)
      requires Valid()
      ensures d == View().Dump()
    {
      var states := new State[STATES_HISTORY_SIZE](_ => Idle);
      var events := new Event[EVENTS_HISTORY_SIZE](_ => Event.Notification(Stop));
      ghost var states0, events0 := states[..], events[..];
      assert states0 == IdleStates();
      assert events0 == StopEvents();
      DequeIntoArray(stateHolder.history, |stateHolder.history|, states);
      DequeIntoArray(eventsHistory, |eventsHistory|, events);
      d := StateDump(states[..], GetState(), events[..]);
    }

    /** Disables the peripheral and reports one failure carrying `reason`
        and a snapshot of the histories. */
    method Fail(reason: Reason)
      requires Valid()
      modifies this
      ensures Valid() && View() == old(View()).Fail(reason)
    {
      enabled := false;
      var dump := DumpState();
      channel := channel + [Err(Error(dump, reason))];
    }

    /** Records `e` in the bounded event history and reports it. */
    method Notify(e: Event)
      requires Valid()
      modifies this
      ensures Valid() && View() == old(View()).Notify(e)
    {
      if |eventsHistory| == EVENTS_HISTORY_SIZE {
        eventsHistory := eventsHistory[1..];
      }
      eventsHistory := eventsHistory + [e];
      channel := channel + [Ok(e)];
    }

    method LockTx(kind: TxLockType)
      requires Valid()
      modifies this`txLock
      ensures Valid() && View() == old(View()).LockTx(kind)
    {
      txLock := Locked(kind);
    }

    method UnlockTx()
      requires Valid()
      modifies this`txLock
      ensures Valid() && View() == old(View()).(txLock := Unlocked)
    {
      txLock := Unlocked;
    }

    method GetRxbufSize() returns (n: nat)
      requires Valid()
      ensures n == |View().received|
    {
      n := receiveBuffer.GetSize();
    }

    method WriteRxbufByte(b: byte) returns (r: Result<(), ()>)
      requires Valid()
      modifies receiveBuffer, receiveBuffer.buf
      ensures Valid() && (View(), r) == old(View()).WriteRxByte(b)
    {
      ghost var v := View();
      r := receiveBuffer.WriteByte(b);
      assert receiveBuffer.buf[..receiveBuffer.size] == receiveBuffer.Contents();
      assert sendBuffer.buf[..sendBuffer.end] == v.txBytes;
      if r.Ok? {
        assert View() == v.(received := v.received + [b]);
      } else {
        assert View() == v;
      }
    }

    method PopTxbufByte() returns (r: Option<byte>)
      requires Valid()
      modifies sendBuffer
      ensures Valid() && (View(), r) == old(View()).PopTxByte()
    {
      r := sendBuffer.Next();
    }

    /** Empties the send buffer and returns how many bytes had been popped. */
    method ResetTxbuf() returns (sent: nat)
      requires Valid()
      modifies sendBuffer
      ensures Valid() && (View(), sent) == old(View()).ResetTx()
    {
      sent := sendBuffer.BytesSent();
      sendBuffer.Reset();
    }

    /** The application's `write`: loads a response into the send buffer and
        unlocks the transmit interrupts. A panic in the send buffer leaves
        everything as it was (the unlock is not reached). */
    method Write(b: seq<byte>) returns (r: Result<seq<byte>, WritePanic>)
      requires Valid()
      modifies this, sendBuffer, sendBuffer.buf
      ensures Valid()
      ensures var v := old(View());
        && (|b| > v.txCapacity ==> r == Err(TooMuchData))
        && (|b| <= v.txCapacity && v.txPos != |v.txBytes| ==> r == Err(NotReset))
        && (r.Err? ==> View() == v)
        && (r.Ok? <==> |b| <= v.txCapacity && v.txPos == |v.txBytes|)
        && (r.Ok? ==> r.value == [] && View() == v.(txBytes := b, txPos := 0, txLock := Unlocked))
        && (r.Ok? ==> v.Write(b) == Ok(View()))
        && (r.Err? ==> v.Write(b) == Err(r.error))
    {
      r := sendBuffer.Write(b);
      if r.Ok? {
        assert sendBuffer.buf[..sendBuffer.end] == sendBuffer.Pending();
        UnlockTx();
      }
    }

    /** The application's `read`: copies the received bytes out; on success
        the receive buffer is emptied, on failure nothing changes. */
    method Read(out: array<byte>) returns (r: Result<nat, nat>)
      requires Valid() && out !in Repr()
      modifies receiveBuffer, out
      ensures Valid()
      ensures var v := old(View());
        if out.Length < |v.received| then
          r == Err(|v.received|) && View() == v && out[..] == old(out[..])
        else
          r == Ok(|v.received|) && View() == v.(received := [])
          && out[..] == v.received + old(out[|v.received|..])
    {
      r := receiveBuffer.Read(out);
      if r.Ok? {
        receiveBuffer.Reset();
      }
    }
  }
}
