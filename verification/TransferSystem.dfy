/** The file transfer end to end (hw2/server.c and hw2/client.c over UDP).

The channel remembers every datagram ever sent, and any of them may arrive at any
time: loss, duplication and reordering in both directions. The reader thread may
run between any two steps. Once the client takes the end marker it keeps the mutex
and leaves: it receives nothing more, and one last pass over the buffer is printed.
*/
module TransferSystem {
  import opened TransferClient
  import opened TransferServer

  /** Inside the receive loop, past it with the last pass to come, or done. */
  datatype Stage = Listening | Leaving | Gone

  datatype System = System(server: Server, client: Client, packets: set<Packet>, acks: set<AckIn>, stage: Stage)

  datatype Event =
    | SrvSend
    | SrvPause
    | SrvAck(a: AckIn)
    | SrvAlarm(giveUp: bool)
    | CliPacket(p: Packet)
    | CliRead

  /** The client opens with a zeroed datagram, which the channel may repeat. */
  ghost predicate Initial(words: seq<string>, s: System) {
    && s.server.rwnd >= 0 && s.server == Start(s.server.rwnd)
    && s.client.rwnd > 0 && s.client == Client(s.client.rwnd, [], 0)
    && s.packets == {} && s.acks == {AckIn(0, 0)} && s.stage == Listening
  }

  ghost predicate Enabled(words: seq<string>, s: System, e: Event) {
    match e
    case SrvSend => s.server.phase.Sending? && s.server.phase.left > 0
    case SrvPause => s.server.phase.Sending? && s.server.phase.left <= 0
    case SrvAck(a) => s.server.phase.Receiving? && s.server.phase.repeats != 3 && a in s.acks
    case SrvAlarm(_) => s.server.phase.Receiving?
    case CliPacket(p) => p in s.packets && s.stage == Listening
    case CliRead => s.client.rwnd > 0 && s.stage != Gone
  }

  ghost function Apply(words: seq<string>, s: System, e: Event): System
    requires Enabled(words, s, e)
  {
    match e
    case SrvSend =>
      var (srv, p) := SendOne(words, s.server);
      s.(server := srv, packets := s.packets + {p})
    case SrvPause =>
      var (srv, out) := Pause(s.server);
      s.(server := srv, packets := s.packets + set p | p in out)
    case SrvAck(a) => s.(server := OnAck(s.server, a))
    case SrvAlarm(giveUp) => s.(server := OnAlarm(s.server, giveUp))
    case CliPacket(p) =>
      var c := Receive(s.client, p);
      s.(client := c, acks := s.acks + {AckIn(|c.accepted|, Window(c))},
         stage := if p.kind == Eof && p.seqno + 1 == |c.accepted| then Leaving else Listening)
    case CliRead => s.(client := Drain(s.client), stage := if s.stage == Leaving then Gone else s.stage)
  }

  ghost predicate Next(words: seq<string>, s: System, e: Event, s': System) {
    Enabled(words, s, e) && s' == Apply(words, s, e)
  }

  ghost predicate IsRun(words: seq<string>, run: seq<System>, events: seq<Event>) {
    && |run| == |events| + 1 && Initial(words, run[0])
    && forall i :: 0 <= i < |events| ==> Next(words, run[i], events[i], run[i + 1])
  }

  ghost predicate Reaches(words: seq<string>, s: System) {
    exists run, events :: IsRun(words, run, events) && run[|events|] == s
  }

  lemma Step(words: seq<string>, s: System, e: Event) returns (s': System)
    requires Reaches(words, s) && Enabled(words, s, e)
    ensures s' == Apply(words, s, e) && Reaches(words, s')
  {
    var run, events :| IsRun(words, run, events) && run[|events|] == s;
    s' := Apply(words, s, e);
    var run', events' := run + [s'], events + [e];
    forall i | 0 <= i < |events'| ensures Next(words, run'[i], events'[i], run'[i + 1]) {
      if i < |events| { assert Next(words, run[i], events[i], run[i + 1]); }
    }
    assert IsRun(words, run', events') && run'[|events'|] == s';
  }

  // ---- The invariant ----

  /** What line `k` of the output may be. */
  ghost predicate LineOk(words: seq<string>, k: int, line: string) {
    if 0 <= k < |words| then line == words[k]
    else line == EOF_LINE || line == "" || (words != [] && line == words[|words| - 1])
  }

  ghost predicate Inv(words: seq<string>, s: System) {
    && ServerOk(words, s.server) && ClientOk(s.client) && s.server.rwnd >= 0
    && (forall p :: p in s.packets ==> TransferServer.PacketOk(words, p))
    && (forall k :: 0 <= k < |s.client.accepted| ==> LineOk(words, k, s.client.accepted[k]))
    && (forall a :: a in s.acks ==> 0 <= a.seqno <= |s.client.accepted| && a.rwnd >= 0)
    && s.server.lastUnacked <= |s.client.accepted|
    && (s.server.phase.Receiving? ==> s.server.phase.prev <= |s.client.accepted|)
    && (s.server.isEof ==> s.server.lastPack != -1 && s.server.lastPack < |s.client.accepted|)
    && (s.stage != Listening ==> |words| < |s.client.accepted|)
  }

  lemma NextKeepsInv(words: seq<string>, s: System, e: Event, s': System)
    requires Inv(words, s) && Next(words, s, e, s')
    ensures Inv(words, s')
  {
    match e
    case SrvSend => SendKeepsOk(words, s.server);
    case SrvPause =>
    case SrvAck(a) => WaitKeepsInv(words, s, e, s');
    case SrvAlarm(_) => WaitKeepsInv(words, s, e, s');
    case CliPacket(p) => ReceiveKeepsInv(words, s, p, s');
    case CliRead => DrainOk(s.client);
  }

  lemma WaitKeepsInv(words: seq<string>, s: System, e: Event, s': System)
    requires Inv(words, s) && Next(words, s, e, s') && (e.SrvAck? || e.SrvAlarm?)
    ensures Inv(words, s')
  {
  }

  lemma DrainOk(c: Client)
    requires ClientOk(c)
    ensures ClientOk(Drain(c)) && c.drained <= Drain(c).drained
  {
    assert 0 <= c.drained % c.rwnd < c.rwnd;
  }

  lemma ReceiveKeepsInv(words: seq<string>, s: System, p: Packet, s': System)
    requires Inv(words, s) && Next(words, s, CliPacket(p), s')
    ensures Inv(words, s')
  {
    assert TransferServer.PacketOk(words, p);
    var c, c' := s.client, s'.client;
    forall k | 0 <= k < |c'.accepted| ensures LineOk(words, k, c'.accepted[k]) {
      if k < |c.accepted| { assert c'.accepted[k] == c.accepted[k]; }
    }
  }

  lemma {:induction false} RunInv(words: seq<string>, run: seq<System>, events: seq<Event>, i: nat)
    requires IsRun(words, run, events) && i < |run|
    ensures Inv(words, run[i])
  {
    if i > 0 {
      RunInv(words, run, events, i - 1);
      NextKeepsInv(words, run[i - 1], events[i - 1], run[i]);
    }
  }

  // ---- End-to-end safety ----

  /** What the client has printed. */
  ghost function Printed(s: System): seq<string> {
    if s.client.drained <= |s.client.accepted| then s.client.accepted[..s.client.drained] else []
  }

  /** In every state of every run, line k of the output is word k of the file. */
  lemma PrintsTheFile(words: seq<string>, run: seq<System>, events: seq<Event>, i: nat)
    requires IsRun(words, run, events) && i < |run|
    ensures run[i].client.drained <= |run[i].client.accepted|
    ensures forall k :: 0 <= k < |Printed(run[i])| ==> LineOk(words, k, Printed(run[i])[k])
    ensures if |Printed(run[i])| <= |words| then Printed(run[i]) <= words else words <= Printed(run[i])
  {
    RunInv(words, run, events, i);
    var out := Printed(run[i]);
    forall k | 0 <= k < |out| ensures LineOk(words, k, out[k]) {
      assert out[k] == run[i].client.accepted[k];
    }
    if |out| <= |words| {
      assert out == words[..|out|];
    } else {
      assert out[..|words|] == words;
    }
  }

  lemma NextGrows(words: seq<string>, s: System, e: Event, s': System)
    requires Inv(words, s) && Next(words, s, e, s')
    ensures s.client.accepted <= s'.client.accepted && s.client.drained <= s'.client.drained
  {
    if e.CliRead? { DrainOk(s.client); }
  }

  /** Nothing printed is ever taken back, repeated or reordered. */
  lemma {:induction false} OutputOnlyGrows(words: seq<string>, run: seq<System>, events: seq<Event>, i: nat, j: nat)
    requires IsRun(words, run, events) && i <= j < |run|
    ensures Printed(run[i]) <= Printed(run[j])
    ensures run[i].client.accepted <= run[j].client.accepted && run[i].client.drained <= run[j].client.drained
    decreases j
  {
    RunInv(words, run, events, j);
    RunInv(words, run, events, i);
    if i < j {
      OutputOnlyGrows(words, run, events, i, j - 1);
      RunInv(words, run, events, j - 1);
      NextGrows(words, run[j - 1], events[j - 1], run[j]);
    }
  }

  /** The sender marks the transfer finished only after the client accepted every
      word of the file and the line numbered as the last packet. */
  lemma NeverFinishesEarly(words: seq<string>, run: seq<System>, events: seq<Event>, i: nat)
    requires IsRun(words, run, events) && i < |run|
    requires run[i].server.isEof
    ensures |words| <= run[i].server.lastPack < |run[i].client.accepted|
    ensures words <= run[i].client.accepted
  {
    RunInv(words, run, events, i);
    assert run[i].client.accepted[..|words|] == words;
  }

  // ---- When the end marker is exact ----

  /** The sender is about to rewind past the last word without knowing yet that the
      file ends there. */
  ghost predicate Overshoots(words: seq<string>, s: Server) {
    s.lastPack == -1 && s.lastUnacked >= |words|
  }

  /** Past the last word only the end marker was ever sent, right after it. */
  ghost predicate CleanPackets(words: seq<string>, packets: set<Packet>) {
    forall p :: p in packets && p.kind != Ping && p.seqno >= |words| ==> p.kind == Eof && p.seqno == |words|
  }

  ghost predicate CleanLines(words: seq<string>, lines: seq<string>) {
    |lines| <= |words| + 1 && (|lines| == |words| + 1 ==> lines[|words|] == EOF_LINE)
  }

  ghost predicate Clean(words: seq<string>, s: System) {
    && CleanPackets(words, s.packets)
    && (s.server.lastPack == -1 ==> s.server.seqNum < |words|)
    && (s.server.lastPack != -1 ==> s.server.lastPack == |words|)
    && CleanLines(words, s.client.accepted)
  }

  lemma NextKeepsClean(words: seq<string>, s: System, e: Event, s': System)
    requires Inv(words, s) && Clean(words, s) && Next(words, s, e, s')
    requires e.SrvSend? ==> !Overshoots(words, s.server)
    ensures Clean(words, s')
  {
    if e.CliPacket? { assert TransferServer.PacketOk(words, e.p); }
  }

  lemma {:induction false} RunClean(words: seq<string>, run: seq<System>, events: seq<Event>, i: nat)
    requires IsRun(words, run, events) && i < |run|
    requires forall j :: 0 <= j < i && events[j].SrvSend? ==> !Overshoots(words, run[j].server)
    ensures Clean(words, run[i])
  {
    if i > 0 {
      RunClean(words, run, events, i - 1);
      RunInv(words, run, events, i - 1);
      assert Next(words, run[i - 1], events[i - 1], run[i]);
      NextKeepsClean(words, run[i - 1], events[i - 1], run[i]);
    }
  }

  lemma {:induction false} PacketsStay(words: seq<string>, run: seq<System>, events: seq<Event>, i: nat, j: nat)
    requires IsRun(words, run, events) && i <= j < |run|
    ensures run[i].packets <= run[j].packets
    decreases j
  {
    if i < j {
      PacketsStay(words, run, events, i, j - 1);
      assert Next(words, run[j - 1], events[j - 1], run[j]);
    }
  }

  /** The end marker is the only thing sent past the last word, and sent right after
      it, exactly in the runs where the sender never sends from an overshooting state. */
  lemma CleanIffNoOvershoot(words: seq<string>, run: seq<System>, events: seq<Event>)
    requires IsRun(words, run, events)
    ensures CleanPackets(words, run[|events|].packets) <==>
            forall j :: 0 <= j < |events| && events[j].SrvSend? ==> !Overshoots(words, run[j].server)
  {
    if forall j :: 0 <= j < |events| && events[j].SrvSend? ==> !Overshoots(words, run[j].server) {
      RunClean(words, run, events, |events|);
    } else {
      var j :| 0 <= j < |events| && events[j].SrvSend? && Overshoots(words, run[j].server);
      assert Next(words, run[j], events[j], run[j + 1]);
      var p := SendOne(words, run[j].server).1;
      assert p in run[j + 1].packets && p.kind == Data && p.seqno >= |words|;
      PacketsStay(words, run, events, j + 1, |events|);
    }
  }

  /** Without an overshoot the client accepts a prefix of the file followed by one
      end line, and all of it by the time the sender finishes. */
  lemma CleanTransfer(words: seq<string>, run: seq<System>, events: seq<Event>, i: nat)
    requires IsRun(words, run, events) && i < |run|
    requires forall j :: 0 <= j < i && events[j].SrvSend? ==> !Overshoots(words, run[j].server)
    ensures run[i].client.accepted <= words + [EOF_LINE]
    ensures run[i].server.isEof ==> run[i].client.accepted == words + [EOF_LINE]
  {
    RunClean(words, run, events, i);
    RunInv(words, run, events, i);
    var got := run[i].client.accepted;
    assert got == (words + [EOF_LINE])[..|got|];
  }

  // ---- When the client leaves ----

  /** The client leaves only after accepting every word of the file. */
  lemma LeavesWithTheFile(words: seq<string>, run: seq<System>, events: seq<Event>, i: nat)
    requires IsRun(words, run, events) && i < |run| && run[i].stage != Listening
    ensures words <= run[i].client.accepted && |words| < |run[i].client.accepted|
  {
    RunInv(words, run, events, i);
    assert run[i].client.accepted[..|words|] == words;
  }

  /** The lines still in the ring do not run past the end of the slot array. */
  ghost predicate Unwrapped(c: Client)
    requires c.rwnd > 0
  {
    c.drained % c.rwnd + (|c.accepted| - c.drained) <= c.rwnd
  }

  lemma {:induction false} GoneStays(words: seq<string>, run: seq<System>, events: seq<Event>, i: nat, j: nat)
    requires IsRun(words, run, events) && i <= j < |run| && run[i].stage == Gone
    ensures run[j].stage == Gone && run[j].client == run[i].client
    decreases j
  {
    if i < j {
      GoneStays(words, run, events, i, j - 1);
      assert Next(words, run[j - 1], events[j - 1], run[j]);
    }
  }

  /** What a client that leaves prints in all: everything it accepted exactly when the
      lines still buffered at its last pass do not wrap around the array; otherwise
      everything up to the end of the array, for good. */
  lemma LastPassPrintsAllIff(words: seq<string>, run: seq<System>, events: seq<Event>, i: nat, j: nat)
    requires IsRun(words, run, events) && i < j < |run| && run[i].stage == Leaving && events[i] == CliRead
    ensures run[i].client.rwnd > 0
    ensures Printed(run[j]) == run[j].client.accepted <==> Unwrapped(run[i].client)
    ensures !Unwrapped(run[i].client) ==>
              var c := run[i].client;
              |Printed(run[j])| == c.drained + (c.rwnd - c.drained % c.rwnd)
  {
    RunInv(words, run, events, i);
    RunInv(words, run, events, i + 1);
    assert Next(words, run[i], events[i], run[i + 1]);
    GoneStays(words, run, events, i + 1, j);
    var c := run[j].client;
    assert Printed(run[j]) == c.accepted[..c.drained];
    assert c.accepted[..|c.accepted|] == c.accepted;
  }
}
