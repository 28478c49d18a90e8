/** A run of the transfer in which the sender overshoots: the acknowledgement of the
whole file arrives while the sender waits for an earlier one, it rewinds past the
end before it knows the file is over, and the client prints the last word twice. */
module TransferOvershoot {
  import opened TransferClient
  import opened TransferServer
  import opened TransferSystem

  const AT_START: System := System(Start(3), Client(3, [], 0), {}, {AckIn(0, 0)}, Listening)

  /** Both words are sent, the second overtakes the first, and the client ends up
      with both, having acknowledged 0 and 2 on the way. */
  lemma BothDelivered(a: string, b: string) returns (s: System)
    ensures Reaches([a, b], s)
    ensures s.client == Client(3, [a, b], 0) && s.stage == Listening
    ensures AckIn(0, 3) in s.acks && AckIn(2, 1) in s.acks
    ensures s.server == Server(1, 2, -1, -1, 3, 1, 0, false, Receiving(2, -1, 0))
  {
    var words := [a, b];
    var none: seq<Event> := [];
    assert IsRun(words, [AT_START], none) && [AT_START][|none|] == AT_START;
    s := Step(words, AT_START, SrvSend);
    s := Step(words, s, SrvPause);
    s := Step(words, s, SrvAlarm(false));
    s := Step(words, s, SrvSend);
    s := Step(words, s, SrvPause);
    s := Step(words, s, CliPacket(Packet(Data, 1, b)));
    s := Step(words, s, CliPacket(Packet(Data, 0, a)));
    s := Step(words, s, CliPacket(Packet(Data, 1, b)));
  }

  /** The old acknowledgement sends the sender back to the first word; then the
      acknowledgement of the whole file arrives out of turn. */
  lemma SenderOvershoots(a: string, b: string) returns (s: System)
    ensures Reaches([a, b], s)
    ensures Overshoots([a, b], s.server) && Enabled([a, b], s, SrvSend)
    ensures s.client == Client(3, [a, b], 0) && s.stage == Listening
    ensures s.server.lastUnacked == 2
  {
    var words := [a, b];
    s := BothDelivered(a, b);
    s := Step(words, s, SrvAck(AckIn(0, 3)));
    s := Step(words, s, SrvAlarm(false));
    s := Step(words, s, SrvSend);
    s := Step(words, s, SrvPause);
    s := Step(words, s, SrvAck(AckIn(2, 1)));
    s := Step(words, s, SrvAlarm(false));
  }

  /** The two-word file comes out as three lines. */
  lemma LastWordRepeated(a: string, b: string) returns (s: System)
    ensures Reaches([a, b], s)
    ensures Printed(s) == [a, b, b]
  {
    var words := [a, b];
    s := SenderOvershoots(a, b);
    s := Step(words, s, SrvSend);
    s := Step(words, s, CliPacket(Packet(Data, 2, b)));
    s := Step(words, s, CliRead);
  }
}
