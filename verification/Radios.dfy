/** The sending side of a socket: everything handed to it, in order. */
module Radios {
  class Radio {
    var sent: seq<string>

    constructor ()
      ensures sent == []
    {
      sent := [];
    }

    // zmq_send_group, when it succeeds.
    method SendGroup(packet: string)
      modifies this
      ensures sent == old(sent) + [packet]
    {
      sent := sent + [packet];
    }
  }
}
