/** The sending end of the file transfer (hw2/server.c).

The file is its sequence of words and `fscanf` a cursor into it. `Server` holds
the fields of `thread_config` with the counters of `send_file_data` and
`receive_ack`; the functions give one step each. `Sender` runs the same steps in
place, with the source's loops.
*/
module TransferServer {
  import opened TransferClient

  datatype AckIn = AckIn(seqno: int, rwnd: int)

  /** Inside a burst with packets left to send, waiting in `receive_ack`, or over. */
  datatype Phase =
    | Sending(left: int)
    | Receiving(expected: int, prev: int, repeats: int)
    | Over

  datatype Server = Server(seqNum: int, cursor: int, lastUnacked: int, lastPack: int,
                           rwnd: int, cwnd: int, ssthresh: int, isEof: bool, phase: Phase)

  function Min(a: int, b: int): int {
    if a < b then a else b
  }

  function Start(rwnd: int): Server {
    Server(-1, 0, -1, -1, rwnd, 1, -1, false, Sending(Min(1, rwnd)))
  }

  /** What the buffer holds after re-reading the file up to and including word `k`:
      at the end of the file `fscanf` leaves the last word where it was. */
  function Reread(words: seq<string>, k: int): string {
    if words == [] then "" else if 0 <= k < |words| then words[k] else words[|words| - 1]
  }

  /** One turn of the burst loop. */
  function SendOne(words: seq<string>, s: Server): (Server, Packet) {
    if s.lastUnacked != -1 then
      var k := s.lastUnacked;
      Label(s.(seqNum := k, cursor := Min(k + 1, |words|), lastUnacked := -1), Reread(words, k))
    else
      var k := s.seqNum + 1;
      if 0 <= s.cursor < |words| then
        Label(s.(seqNum := k, cursor := s.cursor + 1), words[s.cursor])
      else
        Label(s.(seqNum := k, lastPack := if s.lastPack == -1 then k else s.lastPack), "")
  }

  /** The packet for the current number: data, or the end marker once the last
      packet's number is known and reached. */
  function Label(s: Server, text: string): (Server, Packet) {
    var s' := if s.phase.Sending? then s.(phase := Sending(s.phase.left - 1)) else s;
    if s.lastPack != -1 && s.seqNum >= s.lastPack
    then (s'.(seqNum := s.lastPack), Packet(Eof, s.lastPack, text))
    else (s', Packet(Data, s.seqNum, text))
  }

  /** The end of a burst: a probe when the client's window is closed, then wait. */
  function Pause(s: Server): (Server, seq<Packet>) {
    (s.(phase := Receiving(s.seqNum + 1, -1, 0)),
     if s.rwnd == 0 then [Packet(Ping, s.seqNum, "")] else [])
  }

  /** Back to the top of `send_file_data`, or out of it. */
  function NextBurst(s: Server): Server {
    if s.isEof then s.(phase := Over) else s.(phase := Sending(Min(s.cwnd, s.rwnd)))
  }

  /** One datagram taken in `receive_ack`. */
  function OnAck(s: Server, a: AckIn): Server
    requires s.phase.Receiving?
  {
    var s1 := s.(cwnd := if s.ssthresh != -1 && s.cwnd >= s.ssthresh then s.cwnd + 1 else s.cwnd * 2);
    if s.lastPack != -1 && a.seqno > s.lastPack then
      NextBurst(s1.(isEof := true, lastUnacked := -1))
    else
      var s2 := s1.(rwnd := a.rwnd,
                    phase := if s.phase.prev == a.seqno then s.phase.(repeats := s.phase.repeats + 1)
                             else s.phase.(prev := a.seqno, repeats := 0));
      if a.seqno == s.phase.expected then NextBurst(s2.(lastUnacked := -1)) else s2
  }

  /** The retransmission branch of `receive_ack`, on a timeout or the third repeat.
      `giveUp` is `rtt_timeout` running out of attempts. */
  function OnAlarm(s: Server, giveUp: bool): Server
    requires s.phase.Receiving?
  {
    if s.lastPack != -1 && s.phase.prev > s.lastPack then NextBurst(s.(isEof := true))
    else if giveUp then s.(phase := Over)
    else NextBurst(s.(ssthresh := s.cwnd / 2, cwnd := 1,
                      lastUnacked := if s.phase.prev != -1 then s.phase.prev else s.lastUnacked))
  }

  /** The burst loop: packets sent until none is left. */
  function Burst(words: seq<string>, s: Server): (Server, seq<Packet>)
    requires ServerOk(words, s) && s.phase.Sending?
    decreases if s.phase.left > 0 then s.phase.left else 0
  {
    if s.phase.left <= 0 then (s, [])
    else
      SendKeepsOk(words, s);
      var (s1, p) := SendOne(words, s);
      var (s2, rest) := Burst(words, s1);
      (s2, [p] + rest)
  }

  // ---- The sender's own invariant ----

  /** The cursor stands just past the current number's word, and the last packet's
      number, once known, is at least the number of words. */
  ghost predicate ServerOk(words: seq<string>, s: Server) {
    && s.seqNum >= -1
    && s.cursor == Min(s.seqNum + 1, |words|)
    && s.lastUnacked >= -1
    && (s.lastPack == -1 || (s.lastPack >= |words| && s.seqNum <= s.lastPack))
    && (s.phase.Receiving? ==> s.phase.prev >= -1)
    && s.cwnd >= 1
  }

  /** Below the number of words a packet is data and carries the word of its number;
      past it, the end marker or left-over buffer contents. */
  ghost predicate PacketOk(words: seq<string>, p: Packet) {
    p.kind != Ping ==>
      && p.kind != Ack && p.seqno >= 0
      && (p.seqno < |words| ==> p.kind == Data && p.text == words[p.seqno])
      && (p.seqno >= |words| ==> p.text == "" || (words != [] && p.text == words[|words| - 1]))
  }

  lemma SendKeepsOk(words: seq<string>, s: Server)
    requires ServerOk(words, s)
    ensures var (s', p) := SendOne(words, s); ServerOk(words, s') && PacketOk(words, p)
  {
  }

  // ---- What one round of the outer loop sends ----

  /** A number as it is sent: capped at the last packet's, once that is known. */
  function Capped(s: Server, k: int): int {
    if s.lastPack != -1 && k > s.lastPack then s.lastPack else k
  }

  lemma SendNumber(words: seq<string>, s: Server)
    requires ServerOk(words, s) && s.phase.Sending?
    ensures var (s', p) := SendOne(words, s);
            && ServerOk(words, s') && PacketOk(words, p) && p.kind != Ping
            && s'.lastUnacked == -1 && s'.phase == Sending(s.phase.left - 1)
            && p.seqno == Capped(s, if s.lastUnacked != -1 then s.lastUnacked else s.seqNum + 1)
            && Capped(s', s'.seqNum + 1) == if p.kind == Eof then p.seqno else p.seqno + 1
  {
  }

  /** A burst sends as many packets as it is allowed. The first carries the number to
      resend, if there is one, and else the next; from there the numbers go up by one,
      until the end marker, which is repeated. */
  lemma {:induction false} BurstNumbers(words: seq<string>, s: Server)
    requires ServerOk(words, s) && s.phase.Sending?
    ensures var (s', out) := Burst(words, s);
            && |out| == (if s.phase.left > 0 then s.phase.left else 0)
            && ServerOk(words, s') && (forall p :: p in out ==> PacketOk(words, p) && p.kind != Ping)
            && (out != [] ==> s'.lastUnacked == -1
                              && out[0].seqno == Capped(s, if s.lastUnacked != -1 then s.lastUnacked else s.seqNum + 1))
            && forall i :: 0 <= i < |out| - 1 ==>
                 out[i + 1].seqno == if out[i].kind == Eof then out[i].seqno else out[i].seqno + 1
    decreases if s.phase.left > 0 then s.phase.left else 0
  {
    if s.phase.left > 0 {
      var (s1, p) := SendOne(words, s);
      SendNumber(words, s);
      BurstNumbers(words, s1);
      var rest := Burst(words, s1).1;
      var out := Burst(words, s).1;
      assert out == [p] + rest;
      forall i | 0 <= i < |out| - 1
        ensures out[i + 1].seqno == if out[i].kind == Eof then out[i].seqno else out[i].seqno + 1
      {
        if i > 0 { assert out[i] == rest[i - 1] && out[i + 1] == rest[i]; }
      }
    }
  }

  /** The outer loop from its top to `receive_ack`. */
  function Round(words: seq<string>, s: Server): (Server, seq<Packet>)
    requires ServerOk(words, s) && !s.isEof
  {
    BurstNumbers(words, NextBurst(s));
    var (s1, burst) := Burst(words, NextBurst(s));
    var (s2, probe) := Pause(s1);
    (s2, burst + probe)
  }

  lemma {:induction false} BurstKeepsWindows(words: seq<string>, s: Server)
    requires ServerOk(words, s) && s.phase.Sending?
    ensures var s' := Burst(words, s).0; s'.rwnd == s.rwnd && s'.cwnd == s.cwnd && s'.isEof == s.isEof
    decreases if s.phase.left > 0 then s.phase.left else 0
  {
    if s.phase.left > 0 {
      SendKeepsOk(words, s);
      BurstKeepsWindows(words, SendOne(words, s).0);
    }
  }

  /** The sender never waits in silence: a round sends packets of the file as far as
      both windows allow, or, exactly when the client's window is closed, one probe
      and nothing else. It then waits for the number after the last one sent. */
  lemma RoundNeverSilent(words: seq<string>, s: Server)
    requires ServerOk(words, s) && !s.isEof && s.rwnd >= 0
    ensures var (s', out) := Round(words, s);
            && |out| == (if s.rwnd == 0 then 1 else Min(s.cwnd, s.rwnd)) && |out| >= 1
            && (forall p :: p in out ==> (p.kind == Ping <==> s.rwnd == 0))
            && (s.rwnd == 0 ==> out[0].seqno == s.seqNum)
            && s'.phase == Receiving(out[|out| - 1].seqno + 1, -1, 0)
  {
    var s0 := NextBurst(s);
    BurstNumbers(words, s0);
    BurstKeepsWindows(words, s0);
    if s.rwnd > 0 { BurstEndsAt(words, s0); }
  }

  /** The first round sends the first packet alone, or a probe to a closed window. */
  lemma FirstRound(words: seq<string>, rwnd: nat)
    ensures Round(words, Start(rwnd)).1 ==
            if rwnd == 0 then [Packet(Ping, -1, "")]
            else if words == [] then [Packet(Eof, 0, "")]
            else [Packet(Data, 0, words[0])]
  {
    var s := NextBurst(Start(rwnd));
    if rwnd > 0 { assert Burst(words, SendOne(words, s).0).1 == []; }
  }

  lemma {:induction false} BurstEndsAt(words: seq<string>, s: Server)
    requires ServerOk(words, s) && s.phase.Sending? && s.phase.left > 0
    ensures var (s', out) := Burst(words, s); out != [] && out[|out| - 1].seqno == s'.seqNum
    decreases s.phase.left
  {
    SendKeepsOk(words, s);
    var s1 := SendOne(words, s).0;
    if s1.phase.left > 0 { BurstEndsAt(words, s1); }
  }

  // ---- What an acknowledgement and a timeout do ----

  /** One acknowledgement keeps the sender in order. It ends the transfer exactly when
      it goes past the last packet, starts a new burst exactly when it is the number
      waited for, and never makes the sender go back. The congestion window doubles
      below the threshold, or without one, and else grows by one. */
  lemma AckOutcome(words: seq<string>, s: Server, a: AckIn)
    requires ServerOk(words, s) && s.phase.Receiving? && !s.isEof
    ensures var s' := OnAck(s, a);
            && (a.seqno >= -1 ==> ServerOk(words, s'))
            && (s'.isEof <==> s.lastPack != -1 && a.seqno > s.lastPack)
            && (s'.phase.Over? <==> s'.isEof)
            && (s'.phase.Sending? <==> !s'.isEof && a.seqno == s.phase.expected)
            && (s'.phase.Sending? ==> s'.lastUnacked == -1 && s'.phase.left <= a.rwnd)
            && (s'.phase.Receiving? ==> s'.phase.prev == a.seqno && s'.phase.expected == s.phase.expected)
            && s'.cwnd == (if s.ssthresh == -1 || s.cwnd < s.ssthresh then 2 * s.cwnd else s.cwnd + 1)
            && s'.rwnd == (if s'.isEof then s.rwnd else a.rwnd)
            && (s'.phase.Sending? ==> s'.phase.left == Min(s'.cwnd, a.rwnd))
            && (s'.phase.Receiving? ==> s'.lastUnacked == s.lastUnacked)
            && s'.seqNum == s.seqNum && s'.cursor == s.cursor && s'.lastPack == s.lastPack && s'.ssthresh == s.ssthresh
  {
  }

  /** A timeout or third repeat keeps the sender in order. It ends the transfer exactly
      when the last acknowledgement went past the last packet; otherwise, unless the
      sender gives up, the threshold is half the window, the window is 1, and at most one
      packet goes out next: the one last asked for, if any. */
  lemma AlarmOutcome(words: seq<string>, s: Server, giveUp: bool)
    requires ServerOk(words, s) && s.phase.Receiving? && !s.isEof
    ensures var s' := OnAlarm(s, giveUp);
            && ServerOk(words, s')
            && (s'.isEof <==> s.lastPack != -1 && s.phase.prev > s.lastPack)
            && (s'.phase.Over? <==> s'.isEof || giveUp)
            && (!s'.phase.Over? ==>
                  && s'.phase == Sending(Min(1, s.rwnd))
                  && s'.cwnd == 1 && 2 * s'.ssthresh <= s.cwnd <= 2 * s'.ssthresh + 1
                  && (s.phase.prev == -1 ==> s'.lastUnacked == s.lastUnacked)
                  && (s.phase.prev != -1 ==> SendOne(words, s').1.seqno == s.phase.prev))
            && s'.seqNum == s.seqNum && s'.cursor == s.cursor && s'.lastPack == s.lastPack && s'.rwnd == s.rwnd
  {
  }

  // ---- The acknowledgements of one wait ----

  /** An acknowledgement that ends the wait. */
  predicate Ends(s: Server, a: AckIn)
    requires s.phase.Receiving?
  {
    a.seqno == s.phase.expected || (s.lastPack != -1 && a.seqno > s.lastPack)
  }

  /** `receive_ack` waits through all of these but possibly the last. */
  predicate OneWait(s: Server, acks: seq<AckIn>) {
    s.phase.Receiving? && forall i :: 0 <= i < |acks| - 1 ==> !Ends(s, acks[i])
  }

  function TakeAll(s: Server, acks: seq<AckIn>): (s': Server)
    requires OneWait(s, acks)
    ensures acks == [] || !Ends(s, acks[|acks| - 1]) ==> s'.phase.Receiving? && s'.phase.expected == s.phase.expected
    ensures s'.lastPack == s.lastPack && s'.ssthresh == s.ssthresh
  {
    if acks == [] then s else OnAck(TakeAll(s, acks[..|acks| - 1]), acks[|acks| - 1])
  }

  function Pow2(n: nat): (p: nat)
    ensures p >= 1
  {
    if n == 0 then 1 else 2 * Pow2(n - 1)
  }

  /** Doubling `c` reaches the threshold for the first time at the `m`-th time. */
  ghost predicate Crosses(c: int, ssthresh: int, m: nat) {
    ssthresh <= c * Pow2(m) && forall k: nat :: k < m ==> c * Pow2(k) < ssthresh
  }

  /** The congestion window after `n` acknowledgements: doubled by each of the first
      `m`, and by each without a threshold, then one larger each time. */
  function Grown(c: int, ssthresh: int, m: nat, n: nat): int {
    if ssthresh == -1 || n <= m then c * Pow2(n) else c * Pow2(m) + (n - m)
  }

  lemma CrossesSomewhere(c: int, ssthresh: int) returns (m: nat)
    requires c >= 1
    ensures Crosses(c, ssthresh, m)
  {
    m := 0;
    while c * Pow2(m) < ssthresh
      invariant forall k: nat :: k < m ==> c * Pow2(k) < ssthresh
      decreases ssthresh - c * Pow2(m)
    {
      DoubleAgain(c, m);
      m := m + 1;
    }
  }

  lemma DoubleAgain(c: int, n: nat)
    ensures c * Pow2(n + 1) == 2 * (c * Pow2(n))
    ensures c >= 1 ==> c * Pow2(n) >= 1
  {
    var p := Pow2(n);
    assert c * (2 * p) == 2 * (c * p);
  }

  /** One step of the closed form is one acknowledgement's. */
  lemma GrownStep(c: int, ssthresh: int, m: nat, n: nat)
    requires ssthresh != -1 ==> Crosses(c, ssthresh, m)
    ensures var w := Grown(c, ssthresh, m, n);
            Grown(c, ssthresh, m, n + 1) == if ssthresh == -1 || w < ssthresh then 2 * w else w + 1
  {
    DoubleAgain(c, n);
  }

  /** Slow start, then congestion avoidance, over all acknowledgements of a wait. */
  lemma {:induction false} WaitGrowsWindow(s: Server, acks: seq<AckIn>, m: nat)
    requires OneWait(s, acks) && (s.ssthresh != -1 ==> Crosses(s.cwnd, s.ssthresh, m))
    ensures TakeAll(s, acks).cwnd == Grown(s.cwnd, s.ssthresh, m, |acks|)
  {
    if acks != [] {
      var n := |acks| - 1;
      WaitGrowsWindow(s, acks[..n], m);
      GrownStep(s.cwnd, s.ssthresh, m, n);
    }
  }

  /** The list ends in exactly `k` equal numbers. */
  ghost predicate EndsInRun(xs: seq<int>, k: int) {
    && 1 <= k <= |xs|
    && (forall i :: |xs| - k <= i < |xs| ==> xs[i] == xs[|xs| - 1])
    && (k < |xs| ==> xs[|xs| - k - 1] != xs[|xs| - 1])
  }

  /** The numbers asked for. The wait starts as if -1 had been. */
  function Asked(acks: seq<AckIn>): (xs: seq<int>)
    ensures |xs| == |acks| + 1 && xs[0] == -1 && forall i :: 0 <= i < |acks| ==> xs[i + 1] == acks[i].seqno
  {
    if acks == [] then [-1] else Asked(acks[..|acks| - 1]) + [acks[|acks| - 1].seqno]
  }

  lemma OneMoreAsked(xs: seq<int>, k: int, x: int)
    requires EndsInRun(xs, k)
    ensures EndsInRun(xs + [x], if x == xs[|xs| - 1] then k + 1 else 1)
  {
    var ys := xs + [x];
    assert forall i :: 0 <= i < |xs| ==> ys[i] == xs[i];
  }

  /** While `receive_ack` waits it knows the last acknowledgement's number and window,
      and has counted how often in a row that number has been repeated. */
  lemma {:induction false} WaitCountsRepeats(s: Server, acks: seq<AckIn>)
    requires s.phase.Receiving? && s.phase.prev == -1 && s.phase.repeats == 0
    requires forall i :: 0 <= i < |acks| ==> !Ends(s, acks[i])
    ensures var s' := TakeAll(s, acks);
            && s'.phase.prev == Asked(acks)[|acks|] && EndsInRun(Asked(acks), s'.phase.repeats + 1)
            && s'.rwnd == if acks == [] then s.rwnd else acks[|acks| - 1].rwnd
  {
    if acks != [] {
      var n := |acks| - 1;
      WaitCountsRepeats(s, acks[..n]);
      OneMoreAsked(Asked(acks[..n]), TakeAll(s, acks[..n]).phase.repeats + 1, acks[n].seqno);
    }
  }

  /** Fast retransmit is due exactly when the acknowledgements end in four equal ones. */
  lemma FastRetransmitIff(s: Server, acks: seq<AckIn>)
    requires s.phase.Receiving? && s.phase.prev == -1 && s.phase.repeats == 0
    requires forall i :: 0 <= i < |acks| ==> !Ends(s, acks[i]) && acks[i].seqno != -1
    ensures var n := |acks|;
            TakeAll(s, acks).phase.repeats == 3 <==>
            && n >= 4 && acks[n - 4].seqno == acks[n - 3].seqno == acks[n - 2].seqno == acks[n - 1].seqno
            && (n > 4 ==> acks[n - 5].seqno != acks[n - 4].seqno)
  {
    WaitCountsRepeats(s, acks);
    var n, xs, r := |acks|, Asked(acks), TakeAll(s, acks).phase.repeats;
    assert forall i :: 0 <= i < n ==> xs[i + 1] == acks[i].seqno;
    if n >= 4 {
      assert xs[n] == acks[n - 1].seqno && xs[n - 1] == acks[n - 2].seqno && xs[n - 2] == acks[n - 3].seqno;
      assert xs[n - 3] == acks[n - 4].seqno;
      if n > 4 { assert xs[n - 4] == acks[n - 5].seqno; } else { assert xs[0] == -1; }
    }
  }

  class Sender {
    const words: seq<string>
    var seqNum: int
    var cursor: int
    var lastUnacked: int
    var lastPack: int
    var rwnd: int
    var cwnd: int
    var ssthresh: int
    var isEof: bool
    var phase: Phase
    var sent: seq<Packet>

    ghost function State(): Server
      reads this
    {
      Server(seqNum, cursor, lastUnacked, lastPack, rwnd, cwnd, ssthresh, isEof, phase)
    }

    constructor (words: seq<string>, rwnd: int)
      ensures this.words == words && State() == Start(rwnd) && sent == []
    {
      this.words := words;
      seqNum, cursor, lastUnacked, lastPack := -1, 0, -1, -1;
      this.rwnd, cwnd, ssthresh, isEof := rwnd, 1, -1, false;
      phase := Sending(Min(1, rwnd));
      sent := [];
    }

    /** `fscanf(fp, "%s", buf)`: the next word, or at the end the old buffer. */
    method Scan(buf: string) returns (buf': string, atEof: bool)
      requires 0 <= cursor <= |words|
      modifies this`cursor
      ensures atEof <==> old(cursor) == |words|
      ensures cursor == Min(old(cursor) + 1, |words|)
      ensures buf' == if atEof then buf else words[old(cursor)]
    {
      atEof := cursor == |words|;
      buf' := buf;
      if !atEof {
        buf' := words[cursor];
        cursor := cursor + 1;
      }
    }

    /** Reopening the file and reading past `k` words, then one more. */
    method Rewind(k: int) returns (buf: string)
      requires k >= 0
      modifies this`cursor
      ensures cursor == Min(k + 1, |words|)
      ensures buf == Reread(words, k)
    {
      cursor := 0;
      buf := "";
      var count := 0;
      var atEof: bool;
      while count != k
        invariant 0 <= count <= k
        invariant cursor == Min(count, |words|)
        invariant buf == if count == 0 then "" else Reread(words, count - 1)
      {
        buf, atEof := Scan(buf);
        count := count + 1;
      }
      buf, atEof := Scan(buf);
    }

    /** One turn of the burst loop. */
    method SendPacket()
      requires ServerOk(words, State()) && phase.Sending?
      modifies this
      ensures var (s', p) := SendOne(words, old(State()));
              State() == s' && sent == old(sent) + [p]
      ensures ServerOk(words, State())
    {
      SendKeepsOk(words, State());
      var text := "";
      if lastUnacked != -1 {
        seqNum := lastUnacked;
        text := Rewind(seqNum);
        lastUnacked := -1;
      } else {
        seqNum := seqNum + 1;
        var atEof: bool;
        text, atEof := Scan("");
        if atEof && lastPack == -1 { lastPack := seqNum; }
      }
      var kind := Data;
      if seqNum >= lastPack && lastPack != -1 {
        kind := Eof;
        seqNum := lastPack;
      }
      sent := sent + [Packet(kind, seqNum, text)];
      phase := Sending(phase.left - 1);
    }

    method SendBurst()
      requires ServerOk(words, State()) && phase.Sending?
      modifies this
      ensures var (s', out) := Burst(words, old(State()));
              State() == s' && sent == old(sent) + out
      ensures ServerOk(words, State())
    {
      while phase.left > 0
        invariant ServerOk(words, State()) && phase.Sending?
        invariant Burst(words, old(State())).0 == Burst(words, State()).0
        invariant old(sent) + Burst(words, old(State())).1 == sent + Burst(words, State()).1
        decreases phase.left
      {
        SendPacket();
      }
    }

    /** The rest of a turn of the outer loop, up to `receive_ack`. */
    method Probe()
      requires phase.Sending?
      modifies this
      ensures ServerOk(words, old(State())) ==> ServerOk(words, State())
      ensures |sent| > |old(sent)| <==> rwnd == 0
      ensures var (s', out) := Pause(old(State())); State() == s' && sent == old(sent) + out
    {
      if rwnd == 0 { sent := sent + [Packet(Ping, seqNum, "")]; }
      phase := Receiving(seqNum + 1, -1, 0);
    }

    method StartBurst()
      modifies this`phase
      ensures ServerOk(words, old(State())) ==> ServerOk(words, State())
      ensures phase.Over? <==> isEof
      ensures State() == NextBurst(old(State()))
    {
      if isEof { phase := Over; } else { phase := Sending(Min(cwnd, rwnd)); }
    }

    method TakeAck(a: AckIn)
      requires phase.Receiving?
      modifies this
      ensures isEof <==> old(isEof) || (lastPack != -1 && a.seqno > lastPack)
      ensures State() == OnAck(old(State()), a) && sent == old(sent)
    {
      if ssthresh != -1 && cwnd >= ssthresh { cwnd := cwnd + 1; } else { cwnd := cwnd * 2; }
      if a.seqno > lastPack && lastPack != -1 {
        isEof := true;
        lastUnacked := -1;
        StartBurst();
        return;
      }
      rwnd := a.rwnd;
      var done := a.seqno == phase.expected;
      if phase.prev == a.seqno {
        phase := phase.(repeats := phase.repeats + 1);
      } else {
        phase := phase.(prev := a.seqno, repeats := 0);
      }
      if done {
        lastUnacked := -1;
        StartBurst();
      }
    }

    method Retransmit(giveUp: bool)
      requires phase.Receiving?
      modifies this
      ensures isEof <==> old(isEof) || (lastPack != -1 && old(phase.prev) > lastPack)
      ensures State() == OnAlarm(old(State()), giveUp) && sent == old(sent)
    {
      if phase.prev > lastPack && lastPack != -1 {
        isEof := true;
        StartBurst();
        return;
      }
      if giveUp {
        phase := Over;
        return;
      }
      ssthresh := cwnd / 2;
      cwnd := 1;
      if phase.prev != -1 { lastUnacked := phase.prev; }
      StartBurst();
    }
  }
}
