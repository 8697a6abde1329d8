# stm32-async-i2c-slave in Dafny

A model of the sequential core of the `stm32-async-i2c-slave` Rust crate, an
interrupt-driven I2C slave driver for STM32 microcontrollers, and of its
example application, a BME280 sensor emulator.

- **Buffers.** The send buffer is a fixed-size array. The application writes
  a whole response into it, and the event interrupt pops it one byte at a
  time through a `pos`/`end` cursor. The receive buffer is an array that is
  appended to until it is full. The application copies it out and resets it.
- **State holder.** It keeps the current bus state (`Idle`, `TxInitial`,
  `TxRepeated`, `Rx`, `Nack`) and a bounded history of the last five states
  set.
- **Bridge.** It owns the two buffers, the state holder and a bounded
  history of the last five events. It also owns the channel of results
  reported to the application and the transmit-interrupt lock. A failure
  disables the peripheral. It then reports an error carrying a snapshot
  (dump) of both histories, right-aligned in fixed arrays.
- **Interrupt handlers.** The event interrupt handles TXE+RXNE, ADDR, RXNE,
  TXE and STOPF in that order and returns at the first failure. The error
  interrupt handles AF, then BERR, ARLO, OVR, PECERR, TIMEOUT and ALERT.
- **BME280 emulator.** A one-byte write from the master selects a register.
  A two-byte write to a configuration register is accepted. A transmit
  request is answered from a fixed register table, and anything unexpected
  is a panic.

Layout: one module per source file.

| file | module | models |
|---|---|---|
| `types.dfy` | `Types` | the public datatypes of `src/lib.rs` |
| `deques.dfy` | `Deques` | the bounded deque behaviour shared by the histories |
| `send_buffer.dfy` | `SendBuffers` | `src/send_buffer.rs` |
| `receive_buffer.dfy` | `ReceiveBuffers` | `src/receive_buffer.rs` |
| `state_holder.dfy` | `StateHolders` | `src/state_holder.rs` |
| `bridge.dfy` | `Bridges` | `src/bridge.rs` |
| `interrupts.dfy` | `Interrupts` | `src/interrupts.rs` |
| `slave.dfy` | `Slave` | `n_read` from `src/slave.rs` |
| `bme280.dfy` | `Bme280` | `examples/bme280-emulator/src/main.rs` |

How the code is modelled:

- The buffers, the state holder and the bridge are classes whose methods
  update their fields and arrays in place.
- `Bridge.View()` is the bridge's abstract value, a `BridgeView`. Each
  `Bridge` method is proved to move that value as a `BridgeView` function
  says. `SetState`, `Notify`, `Fail`, `LockTx` and `Write` use the function
  of the same name. `WriteRxbufByte`, `PopTxbufByte`, `ResetTxbuf` and
  `DumpState` use `WriteRxByte`, `PopTxByte`, `ResetTx` and `Dump`.
  `UnlockTx`, `GetRxbufSize` and `Read` state their effect on the view
  directly.
- The state holder and the bridge keep the invariant that the current
  state is the last one recorded in the state history, or Idle when the
  history is empty.
- Each interrupt handler is a method over a `Bridge`. It is proved equal to a
  pure specification, `EventStep` or `ErrorStep`, built from one function
  per flag. The lemmas about those functions state the transition
  properties.
- The status registers are an input record `Flags`. The byte read from the
  data register is an input. The byte written to it is an output.
- The async channel is an append-only sequence of `Result<Event, Error>`.
- The peripheral-enable bit (CR1.PE) is the bridge field `enabled`. The
  interrupt-enable bits that the transmit lock toggles are the tag `txLock`.
- Panics are error results: `WritePanic` for the send buffer, and `Panic` /
  `Outcome.Panicked` in the emulator.

## Model

| member | source | states |
|---|---|---|
| SendBuffers.SendBuffer.constructor | src/send_buffer.rs:10-16 | a new send buffer has pos = end = 0, so nothing is pending |
| SendBuffers.SendBuffer.Write | src/send_buffer.rs:18-35 | panics with TooMuchData when the slice is longer than the buffer and with NotReset when bytes are still pending, changing nothing; otherwise pos = 0, end = \|b\|, the first \|b\| slots hold b, later slots are untouched and the returned remainder is empty |
| SendBuffers.SendBuffer.Reset | src/send_buffer.rs:37-40 | empties the buffer: pos = end = 0 and bytes_sent is 0 |
| SendBuffers.SendBuffer.BytesSent | src/send_buffer.rs:42-44 | the number of bytes popped since the last write |
| SendBuffers.SendBuffer.IsEmpty | src/send_buffer.rs:46-48 | true exactly when no byte is pending |
| SendBuffers.SendBuffer.Next | src/send_buffer.rs:54-61 | with nothing pending returns None and changes nothing; otherwise returns buf[pos], advances pos by exactly one and moves that byte from pending to popped |
| SendBuffers.TransmitRoundTrip | src/send_buffer.rs:18-61 | after writing b into an empty buffer, repeated next yields exactly b in order and then None, and bytes_sent is \|b\| |
| ReceiveBuffers.ReceiveBuffer.constructor | src/receive_buffer.rs:9-14 | a new receive buffer holds nothing |
| ReceiveBuffers.ReceiveBuffer.WriteByte | src/receive_buffer.rs:16-24 | a full buffer returns Err and keeps contents and size; otherwise the byte is stored at index size, size grows by one, earlier bytes are kept and Ok is returned |
| ReceiveBuffers.ReceiveBuffer.GetSize | src/receive_buffer.rs:26-28 | the number of bytes received since the last reset |
| ReceiveBuffers.ReceiveBuffer.Read | src/receive_buffer.rs:30-37 | a slice shorter than size gives Err(size) and is untouched; otherwise the stored bytes are copied to its front, the rest is untouched and Ok(size) is returned; the buffer never changes |
| ReceiveBuffers.ReceiveBuffer.Reset | src/receive_buffer.rs:39-41 | empties the buffer |
| ReceiveBuffers.ReceiveRoundTrip | src/receive_buffer.rs:16-41 | after reset, writing k <= capacity bytes and reading into a large enough slice yields exactly those bytes in order |
| StateHolders.StateHolder.constructor | src/state_holder.rs:15-20 | the current state is Idle and the history is empty |
| StateHolders.StateHolder.SetState | src/state_holder.rs:22-25 | get_state returns the new state afterwards, and the state is pushed onto the bounded history |
| StateHolders.StateHolder.GetState | src/state_holder.rs:27-29 | the current state is the last one recorded in the history, or Idle before any was set |
| StateHolders.StateHolder.AddStateInHistory | src/state_holder.rs:39-47 | the history stays within capacity; when full exactly the oldest entry is dropped, and the new state is appended at the back |
| Deques.PushBounded | src/state_holder.rs:39-47 | a push keeps at most capacity entries, the pushed one last, and equals the last capacity entries of history + [x] |
| Deques.PushAll | src/state_holder.rs:39-47 | a history fed any number of pushes never exceeds its capacity |
| Deques.PushAllKeepsLast | src/state_holder.rs:39-47 | after any sequence of pushes the history is the last min(k, capacity) of everything pushed, in order |
| Deques.HistoryIsLastPushed | src/state_holder.rs:39-47 | starting from empty, the history is exactly the last capacity states set |
| Bridges.FailReportsOnce | src/bridge.rs:139-147 | fail reports exactly one Err with the given reason and the current snapshot, clears the enable bit and changes nothing else |
| Bridges.NotifyKeepsLastEvents | src/bridge.rs:149-159 | notify keeps the last EVENTS_HISTORY_SIZE events, dropping exactly the oldest one when full, and reports the event once |
| Bridges.DumpRightAlignsHistories | src/bridge.rs:81-100 | a snapshot has both arrays of size 5, each history in its last slots in order, the unused leading slots holding Idle and Stop, and the current state |
| Bridges.IdleStates | src/bridge.rs:83 | the state snapshot array starts as five Idle entries |
| Bridges.StopEvents | src/bridge.rs:84-85 | the event snapshot array starts as five Stop notifications |
| Bridges.BridgeView.SetState | src/bridge.rs:135-137 | the new state is current and the history is the last five of the old history plus it |
| Bridges.BridgeView.Notify | src/bridge.rs:149-159 | the event history is the last five of the old history plus the event, and Ok(event) is appended to the channel |
| Bridges.BridgeView.Fail | src/bridge.rs:139-147 | the peripheral is disabled and exactly Err(Error(snapshot, reason)) is appended to the channel |
| Bridges.BridgeView.LockTx | src/bridge.rs:161-163 | the transmit lock becomes Locked(kind) |
| Bridges.BridgeView.EnablePeripheral | src/interrupts.rs:116 | the peripheral-enable bit is set |
| Bridges.BridgeView.WriteRxByte | src/bridge.rs:173-175 | refused exactly when the receive buffer is full, changing nothing; otherwise the byte is appended |
| Bridges.BridgeView.PopTxByte | src/bridge.rs:177-179 | None exactly when nothing is pending, changing nothing; otherwise the next pending byte, and one more byte counts as popped |
| Bridges.BridgeView.Write | src/bridge.rs:110-114 | refused exactly when the response does not fit (TooMuchData, checked first) or bytes are still pending (NotReset); otherwise all of the response is pending and the lock is released |
| Bridges.BridgeView.ResetTx | src/bridge.rs:181-186 | returns the number of bytes popped and leaves nothing pending |
| Bridges.DequeIntoArray | src/bridge.rs:50-57 | the deque, given as its two slices, lands in order in the last \|d\| slots and the leading slots are untouched |
| Bridges.Bridge.constructor | src/bridge.rs:62-71 | a new bridge is idle, with empty buffers, histories and channel; the lock and enable bit start as the peripheral set-up leaves them (see "Left out") |
| Bridges.Bridge.GetState | src/bridge.rs:131-133 | the state holder's state: the bridge's current state, the last one recorded or Idle |
| Bridges.Bridge.SetState | src/bridge.rs:135-137 | the bridge takes the new state and pushes it onto the bounded state history, as BridgeView.SetState says |
| Bridges.Bridge.DumpState | src/bridge.rs:81-100 | the snapshot built in arrays equals the right-aligned histories and the current state |
| Bridges.Bridge.Fail | src/bridge.rs:139-147 | the bridge moves exactly as BridgeView.Fail says |
| Bridges.Bridge.Notify | src/bridge.rs:149-159 | the bridge moves exactly as BridgeView.Notify says |
| Bridges.Bridge.LockTx | src/bridge.rs:161-163 | only the transmit lock changes, to the given kind |
| Bridges.Bridge.UnlockTx | src/bridge.rs:165-167 | only the transmit lock changes, to unlocked |
| Bridges.Bridge.GetRxbufSize | src/bridge.rs:169-171 | the number of bytes in the receive buffer |
| Bridges.Bridge.WriteRxbufByte | src/bridge.rs:173-175 | it is the receive buffer's write_byte: appends, or Err with nothing changed when full |
| Bridges.Bridge.PopTxbufByte | src/bridge.rs:177-179 | it is the send buffer's next: the next pending byte, or None with nothing changed |
| Bridges.Bridge.ResetTxbuf | src/bridge.rs:181-186 | returns bytes_sent from before the call and leaves the send buffer empty |
| Bridges.Bridge.Write | src/bridge.rs:110-114 | the send buffer's two panics change nothing; otherwise the response is loaded with nothing popped and the transmit interrupts are unlocked |
| Bridges.Bridge.Read | src/bridge.rs:116-125 | a slice that is too short gives Err(size) with nothing changed; otherwise the bytes are copied out, Ok(size) is returned and the receive buffer is emptied |
| Interrupts.RxneAndTxneOnlyFails | src/interrupts.rs:34-36 | with TXE and RXNE both set the only effect is one RxneAndTxne failure |
| Interrupts.AddrPhase | src/interrupts.rs:38-67 | ADDR returns exactly during a transmission; otherwise the new state follows TRA and the enable bit is kept |
| Interrupts.RxnePhase | src/interrupts.rs:70-84 | RXNE returns exactly outside Rx or with a full buffer; otherwise the byte is appended and nothing is reported |
| Interrupts.TxePhase | src/interrupts.rs:86-113 | TXE returns exactly outside a transmission; a byte written out is the next pending one, and it counts as popped |
| Interrupts.StopPhase | src/interrupts.rs:115-136 | STOPF returns exactly during a transmission; otherwise the bridge ends Idle and enabled |
| Interrupts.EventStep | src/interrupts.rs:30-137 | a byte is written to the data register only when TXE is set without RXNE |
| Interrupts.AddrStartsTransfer | src/interrupts.rs:38-63 | ADDR in Idle, Rx or Nack moves to TxInitial or Rx as TRA says, reports Received{rx size, TRA} first when leaving Rx, then Addr{tx, gencall}, and leaves buffers, lock and enable bit alone |
| Interrupts.AddrDuringTransmissionStops | src/interrupts.rs:64-66 | ADDR during a transmission fails with AddrDuringTransmission and no later flag is handled |
| Interrupts.RxneOnlyWhileReceiving | src/interrupts.rs:70-84 | RXNE in Rx appends the data byte, or fails with ReceiveBufferFull when full; in any other state it fails with RxneWhileNotReceiving |
| Interrupts.TxeTransmits | src/interrupts.rs:86-111 | TXE while transmitting, at the first byte or with BTF, pops one byte and writes it (TxInitial becomes TxRepeated), or with nothing to pop locks TxAndBtf and reports TxEmpty{initial}; otherwise it only locks TxOnly |
| Interrupts.TxeWhileNotTransmittingFails | src/interrupts.rs:86-90 | TXE outside a transmission fails with TxeWhileNotTranseiving and stops |
| Interrupts.StopEndsTransfer | src/interrupts.rs:115-136 | STOPF re-enables the peripheral; Idle stays silent, Rx reports Received{size, false}, Rx and Nack then go Idle and report Stop; during a transmission it fails with StopDuringTransmission |
| Interrupts.EventHandlerFailsAtMostOnce | src/interrupts.rs:30-137 | whatever the flags, the event handler only appends to the channel, and only its last report can be a failure |
| Interrupts.HandleEventInterrupt | src/interrupts.rs:30-137 | the handler's effect on the bridge and the byte it writes are those of EventStep |
| Interrupts.HandleAddr | src/interrupts.rs:38-68 | the ADDR branch moves the bridge as AddrPhase says |
| Interrupts.HandleRxne | src/interrupts.rs:70-84 | the RXNE branch moves the bridge as RxnePhase says |
| Interrupts.HandleTxe | src/interrupts.rs:86-113 | the TXE branch moves the bridge and writes the byte as TxePhase says |
| Interrupts.HandleStop | src/interrupts.rs:115-136 | the STOPF branch moves the bridge as StopPhase says |
| Interrupts.AckFailureEndsRead | src/interrupts.rs:143-151 | AF during a transmission moves to Nack, empties the send buffer and reports Sent with the number of bytes popped |
| Interrupts.AckFailureWhileNotTransmittingStops | src/interrupts.rs:152-154 | AF outside a transmission fails with NackWhileNotTranseiving and no other error flag is handled |
| Interrupts.AfPhase | src/interrupts.rs:143-156 | AF returns exactly outside a transmission; otherwise the state is Nack and nothing is pending |
| Interrupts.FailOn | src/interrupts.rs:176-180 | a raised flag adds exactly one report; only the channel and the enable bit can change |
| Interrupts.OtherErrors | src/interrupts.rs:174-192 | the other error flags change only the channel and the enable bit, and change nothing when none of them is raised |
| Interrupts.ErrorStep | src/interrupts.rs:139-193 | the error interrupt never touches the receive buffer, the transmit lock or the capacities |
| Interrupts.Failures | src/interrupts.rs:158-163 | one Err per error, in order, all with the same snapshot |
| Interrupts.OtherErrorsReportEach | src/interrupts.rs:185-192 | ARLO, OVR, PECERR, TIMEOUT and ALERT each report one failure, in that order, without early return, all with the same snapshot |
| Interrupts.BusErrorOnlyCleared | src/interrupts.rs:186 | BERR on its own reports nothing and changes nothing |
| Interrupts.HandleErrorInterrupt | src/interrupts.rs:139-193 | the handler's effect on the bridge is that of ErrorStep |
| Interrupts.HandleAf | src/interrupts.rs:143-156 | the AF branch moves the bridge as AfPhase says |
| Interrupts.ReportErrors | src/interrupts.rs:158-192 | the remaining error flags move the bridge as OtherErrors says |
| Interrupts.ReportIf | src/interrupts.rs:176-180 | one arm of the error table moves the bridge as FailOn says |
| Slave.NRead | src/slave.rs:104-106 | the number of bytes waiting; with none waiting it panics; the bridge is never changed |
| Bme280.RegisterFromByte | examples/bme280-emulator/src/main.rs:28-64 | a byte that converts gives the register with that address; that it fails exactly when no register has the address is proved by UnknownByteIsNoAddress |
| Bme280.UnknownByteIsNoAddress | examples/bme280-emulator/src/main.rs:28-64 | the conversion fails exactly for the bytes that are no register's address |
| Bme280.RegisterCodeRoundTrip | examples/bme280-emulator/src/main.rs:32-63 | converting a register's address gives the register back |
| Bme280.CodesAreDistinct | examples/bme280-emulator/src/main.rs:32-63 | no two registers share an address |
| Bme280.Response | examples/bme280-emulator/src/main.rs:161-187 | RESET, CONTROL, TEMPDATA and HUMIDDATA panic; every other register answers 1 or 2 bytes, at most the 32-byte send buffer; CHIPID answers 0x60, STATUS 0x00 and MEASUREMENTS 0x90 |
| Bme280.OnReceived | examples/bme280-emulator/src/main.rs:114-149 | size 0 does nothing; size 1 selects the addressed register or panics on an unknown byte; size 2 is accepted exactly for RESET, CONTROL, CONTROLHUMID and CONFIG and leaves the selection alone, else panics; larger sizes panic |
| Bme280.ReceivedStep | examples/bme280-emulator/src/main.rs:109-113 | more than two waiting bytes panic the read and keep the receive buffer; otherwise the receive buffer is emptied, the latched read register is kept and the loop never breaks |
| Bme280.TxEmptyStep | examples/bme280-emulator/src/main.rs:151-191 | the first request of a read latches the selection and clears it, later ones reuse the latch; with no register it panics changing no bridge state; going on means the register's response is loaded with nothing popped |
| Bme280.Step | examples/bme280-emulator/src/main.rs:106-197 | a failure ends the loop and a notification changes nothing; no event adds to the channel |
| Bme280.RegisterReadServed | examples/bme280-emulator/src/main.rs:109-191 | a one-byte write of a readable register's address followed by the first transmit request loads that register's response into the send buffer, unlocks transmission and clears the selection |
| Bme280.RepeatedRequestServesSameRegister | examples/bme280-emulator/src/main.rs:151-191 | later transmit requests of the same read answer the same register again |
| Bme280.ReadWithoutSelectionPanics | examples/bme280-emulator/src/main.rs:152-158 | a read started with no register selected panics |
| Bme280.OversizedWritePanics | examples/bme280-emulator/src/main.rs:110 | a received event with more than two bytes waiting panics in the read and changes nothing |
| Bme280.ContinuedReadWithoutRegisterPanics | examples/bme280-emulator/src/main.rs:155-158 | a later transmit request with no latched register panics and changes nothing |
| Bme280.Emulator.constructor | examples/bme280-emulator/src/main.rs:99-101 | the application starts with no register selected, over the bridge of line 14 with 32-byte send and receive buffers |
| Bme280.Emulator.OnEvent | examples/bme280-emulator/src/main.rs:106-197 | one turn of the loop changes the registers latched and the bridge exactly as Step says |

## Left out

- The async channel and `receive().await` are concurrency. The channel is an append-only sequence, so its capacity and the "Channel is full" panic are not modelled. For the same reason the bridge's `receive` and the slave's `listen` have no member; `Emulator.OnEvent` takes what `listen` returned as its argument.
- Atomics, critical sections, `Mutex`/`RefCell` borrows and `MaybeUninit` are treated as plain sequential fields and arrays. Interleavings of the two interrupts with the application are not modelled.
- `Bridges.Bridge.constructor`: the transmit lock starts unlocked and the peripheral enabled because that is how `I2CSlave::new` (src/slave.rs:66-84) leaves the interrupt-enable bits and CR1.PE; `Bridge::new` itself does not set them.
- `I2CSlave::new` (register set-up), `tx_lock.rs` and the slave's `write`, `read` and `listen` wrappers are not modelled. They only configure the peripheral or forward to the bridge. The lock is the `txLock` tag.
- The hardware register accesses are not modelled: clearing the AF and error flags, and the data register itself. The data register byte is an input or an output of the handlers.
- `StateHolders.StateHolder.constructor`: requires a capacity above zero. With capacity zero, `push_back(..).unwrap()` in the source would panic.
- `Deques.PushBounded`: requires a capacity above zero, for the same reason.
- `Bridges.DequeIntoArray`: the split point of `Deque::as_slices` is an argument. Which split the `heapless` deque actually uses is not part of this model.
- The `dump` feature is taken as enabled, so every `Error` carries a `StateDump`. Formatting of the dump is not modelled.
- defmt logging, NVIC unmasking, `embassy_stm32::init`, the executor and `panic_probe` are left out. The emulator's soft-reset value (0xB6) is only logged, so it is left out too.
- The emulator's `loop` is modelled one turn at a time (`Emulator.OnEvent`). A panic or a break ends the model's turn with an `Outcome` instead of ending the program.
