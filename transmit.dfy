/**
 * The transmit call (`eJIP_SetVar` for a unicast update,
 * `eJIP_MulticastSetVar` for a multicast one) as a sink that records each
 * buffer and size it is handed.
 */
module Transmit {
  import opened JipTypes

  datatype Transmission = Transmission(multicast: bool, buf: Buffer, size: nat)

  class Sink {
    var sent: seq<Transmission>

    constructor ()
      ensures sent == []
    {
      sent := [];
    }

    method Send(t: Transmission)
      modifies this
      ensures sent == old(sent) + [t]
    {
      sent := sent + [t];
    }
  }
}
