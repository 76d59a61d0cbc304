/** tcp_send of main/rfc2217_server.c: one message, put on a socket that takes it piece by piece. */
module TelnetSend {
  import opened Bytes

  /** What one call of send meets: an error, or room for so many bytes. */
  datatype Offer = Failure | Room(bytes: nat)

  datatype Outcome = Done | GaveUp | Waiting

  /** The room there is before the first error. */
  function RoomBeforeFailure(offers: seq<Offer>): nat {
    if offers == [] || offers[0].Failure? then 0 else offers[0].bytes + RoomBeforeFailure(offers[1..])
  }

  function Smaller(a: nat, b: nat): nat {
    if a < b then a else b
  }

  /** The pieces put on the wire are the message from its start, as far as there was room before the first
      error; the loop gives up only at an error. Waiting: the offers are used up in the middle of the
      message. */
  method TcpSend(message: seq<Byte>, offers: seq<Offer>) returns (pieces: seq<seq<Byte>>, outcome: Outcome)
    ensures Flatten(pieces) == message[..Smaller(|message|, RoomBeforeFailure(offers))]
    ensures outcome == Done <==> RoomBeforeFailure(offers) >= |message|
    ensures outcome == GaveUp ==> Failure in offers
    ensures outcome == Waiting ==> Failure !in offers
  {
    pieces := [];
    var toWrite: nat, at: nat, used: nat := |message|, 0, 0;
    while toWrite > 0
      invariant toWrite + at == |message| && used <= |offers|
      invariant Flatten(pieces) == message[..at]
      invariant forall k :: 0 <= k < used ==> offers[k].Room?
      invariant Smaller(|message|, RoomBeforeFailure(offers)) ==
                Smaller(|message|, at + RoomBeforeFailure(offers[used..]))
      decreases |offers| - used
    {
      if used == |offers| {
        return pieces, Waiting;
      }
      if offers[used].Failure? {
        return pieces, GaveUp;
      }
      var written := Smaller(offers[used].bytes, toWrite);
      FlattenSnoc(pieces, message[at..at + written]);
      pieces := pieces + [message[at..at + written]];
      used := used + 1;
      toWrite := toWrite - written;
      at := at + written;
    }
    return pieces, Done;
  }
}
