/** A run of the transfer in which the client leaves with lines still buffered: they
wrap around the slot array, the last pass stops at its end, and a word of the file
is never printed although the sender finishes. */
module TransferTail {
  import opened TransferClient
  import opened TransferServer
  import opened TransferSystem

  /** The sender is at number `k` with one packet to send, nothing acknowledged. */
  ghost predicate At(words: seq<string>, s: System, k: nat) {
    && k <= |words| && s.stage == Listening && !s.server.isEof
    && s.server.seqNum == k - 1 && s.server.cursor == k
    && s.server.lastUnacked == -1 && s.server.lastPack == -1
    && s.server.rwnd == 3 && s.server.cwnd == 1 && s.server.phase == Sending(1)
  }

  /** Word `k` arrives in turn; its acknowledgement is lost, the sender times out and goes on. */
  lemma WordInTurn(words: seq<string>, s: System, k: nat) returns (s': System)
    requires Reaches(words, s) && At(words, s, k) && k < |words|
    requires |s.client.accepted| == k && Window(s.client) > 0
    ensures Reaches(words, s') && At(words, s', k + 1)
    ensures s'.client == s.client.(accepted := s.client.accepted + [words[k]])
  {
    s' := Step(words, s, SrvSend);
    s' := Step(words, s', CliPacket(Packet(Data, k, words[k])));
    s' := Step(words, s', SrvPause);
    s' := Step(words, s', SrvAlarm(false));
  }

  /** Two words through a ring of three slots, both printed. */
  lemma TwoWords(words: seq<string>) returns (s: System)
    requires |words| == 4
    ensures Reaches(words, s) && At(words, s, 2)
    ensures s.client == Client(3, [words[0], words[1]], 2)
  {
    s := System(Start(3), Client(3, [], 0), {}, {AckIn(0, 0)}, Listening);
    var none: seq<Event> := [];
    assert IsRun(words, [s], none) && [s][|none|] == s;
    s := WordInTurn(words, s, 0);
    s := WordInTurn(words, s, 1);
    s := Step(words, s, CliRead);
  }

  /** Two more words, in the last slot and, wrapped around, the first. */
  lemma FourWords(words: seq<string>) returns (s: System)
    requires |words| == 4
    ensures Reaches(words, s) && At(words, s, 4)
    ensures s.client == Client(3, words, 2)
  {
    s := TwoWords(words);
    s := WordInTurn(words, s, 2);
    s := WordInTurn(words, s, 3);
    assert [words[0], words[1]] + [words[2]] + [words[3]] == words;
  }

  /** Both ends are done, the last word was accepted, and it is not in the output. */
  lemma LastWordNotPrinted(a: string, b: string, c: string, d: string) returns (s: System)
    ensures Reaches([a, b, c, d], s)
    ensures s.stage == Gone && s.server.isEof && s.server.phase == Over
    ensures s.client.accepted == [a, b, c, d, EOF_LINE] && Printed(s) == [a, b, c]
  {
    var words := [a, b, c, d];
    s := FourWords(words);
    s := Step(words, s, SrvSend);
    s := Step(words, s, CliPacket(Packet(Eof, 4, "")));
    s := Step(words, s, CliRead);
    s := Step(words, s, SrvPause);
    s := Step(words, s, SrvAck(AckIn(5, 0)));
  }
}
