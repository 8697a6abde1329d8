/** The example application: a BME280 humidity/pressure sensor emulated on
    top of the I2C slave. A one-byte write selects the register to read, a
    two-byte write sets a configuration register, and each transmit request
    is answered with the selected register's canned contents.

    `Step` specifies one turn of the application's loop over the abstract
    state; `Emulator.OnEvent` is that turn written against the bridge. */
module Bme280 {
  import opened Types
  import opened SendBuffers
  import opened Bridges

  /** The sensor registers the emulator knows, named after the BME280
      datasheet. */
  datatype Register =
    | DigT1 | DigT2 | DigT3
    | DigP1 | DigP2 | DigP3 | DigP4 | DigP5 | DigP6 | DigP7 | DigP8 | DigP9
    | DigH1 | DigH2 | DigH3 | DigH4 | DigH5 | DigH5_2 | DigH6
    | ChipId | Reset
    | ControlHumid | Status | Control | Config | Measurements | TempData | HumidData

  /** The register's address on the bus. */
  function Code(reg: Register): byte
  {
    match reg
    case DigT1 => 0x88
    case DigT2 => 0x8A
    case DigT3 => 0x8C
    case DigP1 => 0x8E
    case DigP2 => 0x90
    case DigP3 => 0x92
    case DigP4 => 0x94
    case DigP5 => 0x96
    case DigP6 => 0x98
    case DigP7 => 0x9A
    case DigP8 => 0x9C
    case DigP9 => 0x9E
    case DigH1 => 0xA1
    case DigH2 => 0xE1
    case DigH3 => 0xE3
    case DigH4 => 0xE4
    case DigH5 => 0xE5
    case DigH5_2 => 0xE6
    case DigH6 => 0xE7
    case ChipId => 0xD0
    case Reset => 0xE0
    case ControlHumid => 0xF2
    case Status => 0xF3
    case Control => 0xF4
    case Config => 0xF5
    case Measurements => 0xF7
    case TempData => 0xFA
    case HumidData => 0xFD
  }

  /** The register at address `b`, if there is one: the conversion derived
      from the register numbering. */
  function RegisterFromByte(b: byte): (r: Option<Register>)
    ensures r.Some? ==> Code(r.value) == b
  {
    match b
    case 0x88 => Some(DigT1)
    case 0x8A => Some(DigT2)
    case 0x8C => Some(DigT3)
    case 0x8E => Some(DigP1)
    case 0x90 => Some(DigP2)
    case 0x92 => Some(DigP3)
    case 0x94 => Some(DigP4)
    case 0x96 => Some(DigP5)
    case 0x98 => Some(DigP6)
    case 0x9A => Some(DigP7)
    case 0x9C => Some(DigP8)
    case 0x9E => Some(DigP9)
    case 0xA1 => Some(DigH1)
    case 0xE1 => Some(DigH2)
    case 0xE3 => Some(DigH3)
    case 0xE4 => Some(DigH4)
    case 0xE5 => Some(DigH5)
    case 0xE6 => Some(DigH5_2)
    case 0xE7 => Some(DigH6)
    case 0xD0 => Some(ChipId)
    case 0xE0 => Some(Reset)
    case 0xF2 => Some(ControlHumid)
    case 0xF3 => Some(Status)
    case 0xF4 => Some(Register.Control)
    case 0xF5 => Some(Config)
    case 0xF7 => Some(Measurements)
    case 0xFA => Some(TempData)
    case 0xFD => Some(HumidData)
    case _ => None
  }

  /** Converting a register's address gives the register back. */
  lemma RegisterCodeRoundTrip(reg: Register)
    ensures RegisterFromByte(Code(reg)) == Some(reg)
  {
  }

  /** No two registers share an address. */
  lemma CodesAreDistinct(a: Register, b: Register)
    ensures Code(a) == Code(b) <==> a == b
  {
    RegisterCodeRoundTrip(a);
    RegisterCodeRoundTrip(b);
  }

  /** The conversion fails exactly for the bytes that are no register's
      address. */
  lemma UnknownByteIsNoAddress(b: byte)
    ensures RegisterFromByte(b).None? <==> forall reg :: Code(reg) != b
  {
    if RegisterFromByte(b).None? {
      forall reg
        ensures Code(reg) != b
      {
        RegisterCodeRoundTrip(reg);
      }
    }
  }

  /** Why the application stopped with a panic. */
  datatype Panic =
    | ReadFailed(waiting: nat)               // `read(..).unwrap()` on a 2-byte buffer
    | UnknownRegister(code: byte)
    | UnexpectedRegisterWrite(reg: Register)
    | UnexpectedSize
    | NoReadingRegister
    | UnexpectedRegisterRead(reg: Register)
    | SendBufferPanic(write: WritePanic)

  /** Registers whose writes are accepted (and otherwise ignored). */
  predicate Writable(reg: Register)
  {
    reg == Reset || reg == Register.Control || reg == ControlHumid || reg == Config
  }

  /** Registers that cannot be read. */
  predicate Unreadable(reg: Register)
  {
    reg == Reset || reg == Register.Control || reg == TempData || reg == HumidData
  }

  /** The canned contents sent for a register read. */
  function Response(reg: Register): (r: Result<seq<byte>, Panic>)
    ensures r.Err? <==> Unreadable(reg)
    ensures r.Err? ==> r.error == UnexpectedRegisterRead(reg)
    ensures r.Ok? ==> 1 <= |r.value| <= 2
    ensures reg == ChipId ==> r == Ok([0x60])
    ensures reg == Status ==> r == Ok([0x00])
    ensures reg == Measurements ==> r == Ok([0x90])
  {
    match reg
    case ChipId => Ok([0x60])
    case Status => Ok([0x00])
    case DigT1 => Ok([0x60, 0x60])
    case DigT2 => Ok([0x60, 0x60])
    case DigT3 => Ok([0x60, 0x60])
    case DigP1 => Ok([0x60, 0x60])
    case DigP2 => Ok([0x60, 0x60])
    case DigP3 => Ok([0x60, 0x60])
    case DigP4 => Ok([0x60, 0x60])
    case DigP5 => Ok([0x60, 0x60])
    case DigP6 => Ok([0x00, 0x60])
    case DigP7 => Ok([0x00, 0x00])
    case DigP8 => Ok([0x00, 0x00])
    case DigP9 => Ok([0x00, 0x00])
    case DigH1 => Ok([0x00])
    case DigH2 => Ok([0x00, 0x00])
    case DigH3 => Ok([0x00])
    case DigH4 => Ok([0x00])
    case DigH5 => Ok([0x00, 0x00])
    case DigH5_2 => Ok([0x00])
    case DigH6 => Ok([0x00])
    case ControlHumid => Ok([0x00])
    case Config => Ok([0x00])
    case Measurements => Ok([0x90])
    case Reset => Err(UnexpectedRegisterRead(reg))
    case Control => Err(UnexpectedRegisterRead(reg))
    case TempData => Err(UnexpectedRegisterRead(reg))
    case HumidData => Err(UnexpectedRegisterRead(reg))
  }

  /** What a write from the master of `payload` does to the register
      selected for reading: nothing for an empty write, a one-byte write
      selects a register, a two-byte write to a writable register is
      accepted and leaves the selection alone. */
  function OnReceived(payload: seq<byte>, readingReg: Option<Register>): (r: Result<Option<Register>, Panic>)
    ensures |payload| == 0 ==> r == Ok(readingReg)
    ensures |payload| == 1 ==>
      && (r.Ok? ==> r.value.Some? && Code(r.value.value) == payload[0])
      && (r.Err? ==> r.error == UnknownRegister(payload[0]) && forall reg :: Code(reg) != payload[0])
    ensures |payload| == 2 ==>
      && (r.Ok? <==> exists reg :: Code(reg) == payload[0] && Writable(reg))
      && (r.Ok? ==> r.value == readingReg)
      && (r.Err? ==> r.error == UnknownRegister(payload[0])
                     || (r.error.UnexpectedRegisterWrite? && Code(r.error.reg) == payload[0]))
    ensures |payload| > 2 ==> r == Err(UnexpectedSize)
  {
    if |payload| == 0 then Ok(readingReg)
    else if |payload| == 1 then
      match RegisterFromByte(payload[0])
      case Some(reg) => Ok(Some(reg))
      case None => UnknownByteIsNoAddress(payload[0]); Err(UnknownRegister(payload[0]))
    else if |payload| == 2 then
      match RegisterFromByte(payload[0])
      case Some(reg) => if Writable(reg) then Ok(readingReg) else Err(UnexpectedRegisterWrite(reg))
      case None => UnknownByteIsNoAddress(payload[0]); Err(UnknownRegister(payload[0]))
    else Err(UnexpectedSize)
  }

  /** The loop either goes on, stops on a reported failure, or panics. */
  datatype Outcome = Continue | Break | Panicked(panic: Panic)

  /** The application's abstract state: the register selected by the last
      one-byte write, the register of the current read, and the bridge. */
  datatype EmulatorView = EmulatorView(reading: Option<Register>, last: Option<Register>, bridge: BridgeView)

  /** A received-data event: the bytes are read into a 2-byte buffer (more
      than two bytes make the read fail) and interpreted. */
  function ReceivedStep(s: EmulatorView): (r: (EmulatorView, Outcome))
    requires s.bridge.Valid()
    ensures r.0.bridge.Valid()
    ensures 2 < |s.bridge.received| ==> r == (s, Panicked(ReadFailed(|s.bridge.received|)))
    ensures |s.bridge.received| <= 2 ==> r.0.bridge == s.bridge.(received := []) && r.0.last == s.last
    ensures r.1 != Break
  {
    var n := |s.bridge.received|;
    if 2 < n then (s, Panicked(ReadFailed(n)))
    else
      var s1 := s.(bridge := s.bridge.(received := []));
      match OnReceived(s.bridge.received, s.reading)
      case Ok(reg) => (s1.(reading := reg), Continue)
      case Err(p) => (s1, Panicked(p))
  }

  /** A transmit request: at the start of a read the selected register
      becomes the register of the read and the selection is cleared; later
      requests of the same read reuse it. Its contents are then written. */
  function TxEmptyStep(s: EmulatorView, initial: bool): (r: (EmulatorView, Outcome))
    requires s.bridge.Valid()
    ensures r.0.bridge.Valid()
    ensures initial ==> r.0.last == s.reading && r.0.reading == None
    ensures !initial ==> r.0.last == s.last && r.0.reading == s.reading
    ensures (if initial then s.reading else s.last).None? ==>
      r.1 == Panicked(NoReadingRegister) && r.0.bridge == s.bridge
    ensures r.1 == Continue ==>
      && r.0.last.Some? && Response(r.0.last.value).Ok?
      && r.0.bridge.txBytes == Response(r.0.last.value).value && r.0.bridge.txPos == 0
  {
    var reg := if initial then s.reading else s.last;
    var s1 := if initial then s.(last := s.reading, reading := None) else s;
    if reg.None? then (s1, Panicked(NoReadingRegister))
    else
      match Response(reg.value)
      case Err(p) => (s1, Panicked(p))
      case Ok(bytes) =>
        match s1.bridge.Write(bytes)
        case Err(wp) => (s1, Panicked(SendBufferPanic(wp)))
        case Ok(b) => (s1.(bridge := b), Continue)
  }

  /** One turn of the application's loop, given what `listen` returned. */
  function Step(s: EmulatorView, ev: Result<Event, Error>): (r: (EmulatorView, Outcome))
    requires s.bridge.Valid()
    ensures r.0.bridge.Valid()
    ensures ev.Err? ==> r == (s, Break)
    ensures ev.Ok? && ev.value.Notification? ==> r == (s, Continue)
    ensures r.0.bridge.channel == s.bridge.channel
  {
    if ev.Err? then (s, Break)
    else if ev.value.Notification? then (s, Continue)
    else if ev.value.control.Received? then ReceivedStep(s)
    else TxEmptyStep(s, ev.value.control.initial)
  }

  /** A register read as the master performs it, with the previous response
      fully sent: the one-byte write of the register's address selects it,
      and the transmit request at the start of the read loads the
      register's contents into the send buffer, unlocks the transmit
      interrupts and clears the selection. */
  lemma RegisterReadServed(s: EmulatorView, reg: Register, write: bool)
    requires s.bridge.Valid() && s.bridge.txCapacity >= 2
    requires s.bridge.received == [Code(reg)]
    requires s.bridge.txPos == |s.bridge.txBytes|
    requires !Unreadable(reg)
    ensures var (s1, o1) := Step(s, Ok(Event.Control(Received(1, write))));
      && o1 == Continue
      && s1.reading == Some(reg) && s1.bridge.received == []
      && var (s2, o2) := Step(s1, Ok(Event.Control(TxEmpty(true))));
      && o2 == Continue
      && s2.reading == None && s2.last == Some(reg)
      && s2.bridge == s1.bridge.(txBytes := Response(reg).value, txPos := 0, txLock := Unlocked)
  {
    RegisterCodeRoundTrip(reg);
  }

  /** Later transmit requests of the same read, once the previous bytes
      went out, answer the same register again and leave the selection
      alone. */
  lemma RepeatedRequestServesSameRegister(s: EmulatorView, reg: Register)
    requires s.bridge.Valid() && s.bridge.txCapacity >= 2
    requires s.last == Some(reg) && !Unreadable(reg)
    requires s.bridge.txPos == |s.bridge.txBytes|
    ensures Step(s, Ok(Event.Control(TxEmpty(false))))
      == (s.(bridge := s.bridge.(txBytes := Response(reg).value, txPos := 0, txLock := Unlocked)), Continue)
  {
  }

  /** A transmit request at the start of a read with no register selected
      panics, whatever happened before. */
  lemma ReadWithoutSelectionPanics(s: EmulatorView)
    requires s.bridge.Valid() && s.reading.None?
    ensures Step(s, Ok(Event.Control(TxEmpty(true)))).1 == Panicked(NoReadingRegister)
  {
  }

  /** More than two waiting bytes do not fit the 2-byte buffer: the read
      fails and the receive buffer is kept. */
  lemma OversizedWritePanics(s: EmulatorView, size: nat, write: bool)
    requires s.bridge.Valid() && |s.bridge.received| > 2
    ensures Step(s, Ok(Event.Control(Received(size, write)))) == (s, Panicked(ReadFailed(|s.bridge.received|)))
  {
  }

  /** A later transmit request of a read that never had a register panics,
      changing nothing. */
  lemma ContinuedReadWithoutRegisterPanics(s: EmulatorView)
    requires s.bridge.Valid() && s.last.None?
    ensures Step(s, Ok(Event.Control(TxEmpty(false)))) == (s, Panicked(NoReadingRegister))
  {
  }

  class Emulator {
    const bridge: Bridge
    const buf: array<byte>
    var readingReg: Option<Register>
    var lastReadingReg: Option<Register>

    ghost predicate Valid()
      reads this, bridge, bridge.Repr()
    {
      && bridge.Valid()
      && buf.Length == 2
      && buf !in bridge.Repr()
    }

    ghost function View(): EmulatorView
      reads this, bridge, bridge.Repr()
      requires Valid()
    {
      EmulatorView(readingReg, lastReadingReg, bridge.View())
    }

    /** The application at start-up, over a bridge with a 32-byte send
        buffer and a 32-byte receive buffer. */
    constructor ()
      ensures Valid() && fresh(bridge) && fresh(buf)
      ensures View() == EmulatorView(None, None, BridgeView(Idle, [], [], 32, [], 0, 32, [], [], Unlocked, true))
    {
      bridge := new Bridge(32, 32);
      buf := new byte[2];
      readingReg := None;
      lastReadingReg := None;
    }

    /** Handles one result of `listen`. */
    method OnEvent(ev: Result<Event, Error>) returns (outcome: Outcome)
      requires Valid()
      modifies this, buf, bridge, bridge.receiveBuffer, bridge.sendBuffer, bridge.sendBuffer.buf
      ensures Valid()
      ensures (View(), outcome) == Step(old(View()), ev)
    {
      if ev.Err? {
        return Break;
      }
      var e := ev.value;
      if e.Notification? {
        return Continue;
      }
      if e.control.Received? {
        var r := bridge.Read(buf);
        if r.Err? {
          return Panicked(ReadFailed(r.error));
        }
        var res := OnReceived(buf[..r.value], readingReg);
        if res.Err? {
          return Panicked(res.error);
        }
        readingReg := res.value;
        return Continue;
      }
      var reg;
      if e.control.initial {
        lastReadingReg := readingReg;
        reg := readingReg;
        readingReg := None;
      } else {
        reg := lastReadingReg;
      }
      if reg.None? {
        return Panicked(NoReadingRegister);
      }
      var response := Response(reg.value);
      if response.Err? {
        return Panicked(response.error);
      }
      var w := bridge.Write(response.value);
      if w.Err? {
        return Panicked(SendBufferPanic(w.error));
      }
      outcome := Continue;
    }
  }
}
