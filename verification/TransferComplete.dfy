/** The transfer can always be completed (hw2/server.c, hw2/client.c): for every file
there is a run after which the client has printed exactly the file and the end
line, and the sender has finished. */
module TransferComplete {
  import opened TransferClient
  import opened TransferServer
  import opened TransferSystem

  /** Everything sent so far is printed: `k` lines, the next number due, the burst not over. */
  ghost predicate InStep(words: seq<string>, s: System, k: nat) {
    && k <= |words| && s.client.rwnd > 0 && s.stage == Listening
    && s.client == Client(s.client.rwnd, words[..k], k)
    && s.server.seqNum == k - 1 && s.server.cursor == k
    && s.server.lastUnacked == -1 && s.server.lastPack == -1 && !s.server.isEof
    && s.server.rwnd > 0 && s.server.cwnd > 0
    && s.server.phase.Sending?
    && (s.server.phase.left <= 0 ==> k > 0 && AckIn(k, s.client.rwnd) in s.acks)
  }

  lemma DrainOne(c: Client)
    requires c.rwnd > 0 && |c.accepted| == c.drained + 1
    ensures Drain(c) == c.(drained := |c.accepted|)
  {
    assert 0 <= c.drained % c.rwnd < c.rwnd;
  }

  /** One packet goes out, is accepted and acknowledged, and its line printed. */
  lemma OnePacket(words: seq<string>, s: System, p: Packet, c: Client) returns (s': System)
    requires Reaches(words, s) && Enabled(words, s, SrvSend) && p == SendOne(words, s.server).1 && s.stage == Listening
    requires c == s.client && c.rwnd > 0 && c.drained == |c.accepted|
    requires p.seqno == |c.accepted| && (p.kind == Data || p.kind == Eof)
    ensures Reaches(words, s') && s'.server == SendOne(words, s.server).0
    ensures s'.client == Client(c.rwnd, c.accepted + [Line(p)], |c.accepted| + 1)
    ensures AckIn(|c.accepted| + 1, c.rwnd - 1) in s'.acks && p in s'.packets
    ensures s'.stage == if p.kind == Eof then Gone else Listening
  {
    s' := Step(words, s, SrvSend);
    s' := Step(words, s', CliPacket(p));
    DrainOne(s'.client);
    s' := Step(words, s', CliRead);
  }

  lemma OneWord(words: seq<string>, s: System, k: nat) returns (s': System)
    requires Reaches(words, s) && InStep(words, s, k) && k < |words| && s.server.phase.left > 0
    ensures Reaches(words, s') && InStep(words, s', k + 1)
  {
    var p := SendOne(words, s.server).1;
    assert p == Packet(Data, k, words[k]);
    s' := OnePacket(words, s, p, s.client);
    // A repeat of the packet is acknowledged with the window open again.
    s' := Step(words, s', CliPacket(p));
    assert words[..k] + [words[k]] == words[..k + 1];
  }

  /** Between bursts: wait, take the acknowledgement, start again. */
  lemma NextRound(words: seq<string>, s: System, k: nat) returns (s': System)
    requires Reaches(words, s) && InStep(words, s, k) && s.server.phase.left <= 0
    ensures Reaches(words, s') && InStep(words, s', k) && s'.server.phase.left > 0
  {
    s' := Step(words, s, SrvPause);
    s' := Step(words, s', SrvAck(AckIn(k, s.client.rwnd)));
  }

  lemma {:induction false} AllWords(words: seq<string>, s: System, k: nat) returns (s': System)
    requires Reaches(words, s) && InStep(words, s, k)
    ensures Reaches(words, s') && InStep(words, s', |words|) && s'.server.phase.left > 0
    decreases |words| - k
  {
    s' := s;
    if s'.server.phase.left <= 0 { s' := NextRound(words, s', k); }
    if k < |words| {
      s' := OneWord(words, s', k);
      s' := AllWords(words, s', k + 1);
    }
  }

  /** The marker is out and printed; the rest of the burst repeats it. */
  ghost predicate Marked(words: seq<string>, s: System) {
    && s.client.accepted == words + [EOF_LINE] && s.client.drained == |words| + 1
    && s.server.seqNum == s.server.lastPack == s.server.cursor == |words|
    && s.server.lastUnacked == -1 && !s.server.isEof && s.server.phase.Sending?
    && s.server.rwnd > 0
    && AckIn(|words| + 1, s.client.rwnd - 1) in s.acks && s.stage == Gone
  }

  lemma {:induction false} BurstRunsOut(words: seq<string>, s: System) returns (s': System)
    requires Reaches(words, s) && Marked(words, s)
    ensures Reaches(words, s') && Marked(words, s') && s'.server.phase.left <= 0
    decreases if s.server.phase.left > 0 then s.server.phase.left else 0
  {
    s' := s;
    if s.server.phase.left > 0 {
      s' := Step(words, s, SrvSend);
      s' := BurstRunsOut(words, s');
    }
  }

  /** The start, with the window opened by a probe if the server begins with none. */
  lemma Opens(words: seq<string>, srvRwnd: nat, cliRwnd: nat) returns (s: System)
    requires cliRwnd > 0
    ensures Reaches(words, s) && InStep(words, s, 0)
  {
    s := System(Start(srvRwnd), Client(cliRwnd, [], 0), {}, {AckIn(0, 0)}, Listening);
    var none: seq<Event> := [];
    assert IsRun(words, [s], none) && [s][|none|] == s;
    if srvRwnd == 0 {
      var probe := Packet(Ping, -1, "");
      assert Pause(s.server).1 == [probe];
      s := Step(words, s, SrvPause);
      s := Step(words, s, CliPacket(probe));
      s := Step(words, s, SrvAck(AckIn(0, cliRwnd)));
    }
  }

  /** For every file and every pair of window sizes there is a complete transfer. */
  lemma TransferCompletes(words: seq<string>, srvRwnd: nat, cliRwnd: nat) returns (s: System)
    requires cliRwnd > 0
    ensures Reaches(words, s) && s.server.isEof && s.stage == Gone
    ensures Printed(s) == words + [EOF_LINE]
  {
    s := Opens(words, srvRwnd, cliRwnd);
    s := AllWords(words, s, 0);
    assert words[..|words|] == words;
    var p := SendOne(words, s.server).1;
    assert p.kind == Eof && p.seqno == |words|;
    s := OnePacket(words, s, p, s.client);
    s := BurstRunsOut(words, s);
    s := Step(words, s, SrvPause);
    s := Step(words, s, SrvAck(AckIn(|words| + 1, s.client.rwnd - 1)));
  }
}
