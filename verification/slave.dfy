/** The slave driver's application-side calls that add behaviour of their
    own on top of the bridge. */
module Slave {
  import opened Types
  import opened Bridges

  /** The number of received bytes waiting, found by reading into an empty
      slice. With nothing waiting that read succeeds and the driver panics,
      which is `Err(())` here. Either way the bridge is left as it was. */
  method NRead(bridge: Bridge) returns (r: Result<nat, ()>)
    requires bridge.Valid()
    modifies bridge.receiveBuffer
    ensures bridge.Valid() && bridge.View() == old(bridge.View())
    ensures r == if old(bridge.View()).received == [] then Err(()) else Ok(|old(bridge.View()).received|)
  {
    var empty := new byte[0];
    var res := bridge.Read(empty);
    match res
    case Err(n) => r := Ok(n);
    case Ok(_) => r := Err(());
  }
}
