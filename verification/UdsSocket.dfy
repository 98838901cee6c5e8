/** The socket: an oracle link, and a record of everything done on it. */
module Communication {
  import opened Bytes
  import opened Options
  import opened UdsTypes
  import opened Exchange

  class UdsSocket {
    var wire: Wire

    constructor (link: Link)
      ensures wire == Wire(link, [])
    {
      wire := Wire(link, []);
    }

    method Send(payload: seq<byte>) returns (r: Await<()>)
      modifies this
      ensures Run(r, wire) == Transmit(payload, old(wire))
    {
      var run := Transmit(payload, wire);
      wire := run.wire;
      r := run.outcome;
    }

    method Receive() returns (r: Await<seq<byte>>)
      modifies this
      ensures Run(r, wire) == Listen(old(wire))
    {
      var run := Listen(wire);
      wire := run.wire;
      r := run.outcome;
    }

    /** A receive under the 2500 ms timeout. */
    method ReceiveTimeout() returns (r: Await<Option<seq<byte>>>)
      modifies this
      ensures Run(r, wire) == ListenBriefly(old(wire))
    {
      var run := ListenBriefly(wire);
      wire := run.wire;
      r := run.outcome;
    }
  }
}
