/** The public datatypes of the I2C slave library: bus state, the events the
    interrupt handlers report to the application, and the failure reasons. */
module Types {

  /** An 8-bit register or data value. */
  newtype byte = x: int | 0 <= x < 256

  datatype Option<T> = None | Some(value: T)

  datatype Result<T, E> = Ok(value: T) | Err(error: E)

  /** Where the slave is within a bus transaction. */
  datatype State = Idle | TxInitial | TxRepeated | Rx | Nack
  {
    predicate Transmitting()
    {
      this == TxInitial || this == TxRepeated
    }
  }

  datatype Notification = Addr(tx: bool, gencall: bool) | Sent(sent: nat) | Stop

  /** Events the application must react to (read the received bytes, or
      supply bytes to transmit). */
  datatype Control = Received(size: nat, write: bool) | TxEmpty(initial: bool)

  datatype Event = Notification(notification: Notification) | Control(control: Control)

  datatype I2CError =
    | BusError
    | ArbitrationLoss
    | AcknowledgeFailure
    | Overrun
    | PecError
    | Timeout
    | SmBusAlert

  datatype ProtocolError =
    | RxneAndTxne
    | AddrDuringTransmission
    | RxneWhileNotReceiving
    | TxeWhileNotTranseiving
    | StopDuringTransmission
    | NackWhileNotTranseiving

  datatype Reason = I2C(i2c: I2CError) | Protocol(protocol: ProtocolError) | ReceiveBufferFull

  /** The snapshot attached to every failure: the last states and events,
      right-aligned in fixed-size arrays, and the current state. */
  datatype StateDump = StateDump(stateHistory: seq<State>, currentState: State, eventHistory: seq<Event>)

  datatype Error = Error(dump: StateDump, reason: Reason)

  /** What the transmit lock does to the interrupt-enable bits. */
  datatype TxLockType = TxOnly | TxAndBtf

  /** The transmit-interrupt lock: both buffer and event interrupts enabled,
      or locked in one of the two ways. */
  datatype TxLock = Unlocked | Locked(kind: TxLockType)
}
