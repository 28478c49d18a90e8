/** The congestion window over whole runs of the transfer (hw2/server.c): slow start up
to half the window of the last timeout, then one more for every acknowledgement,
across all waits and bursts in between.
*/
module TransferWindow {
  import opened TransferServer
  import opened TransferSystem

  /** The acknowledgements the sender takes in steps `i` to `k`. */
  function AcksTaken(events: seq<Event>, i: nat, k: nat): nat
    requires i <= k <= |events|
    decreases k
  {
    if i == k then 0 else AcksTaken(events, i, k - 1) + if events[k - 1].SrvAck? then 1 else 0
  }

  ghost predicate NoAlarm(events: seq<Event>, i: nat, k: nat)
    requires i <= k <= |events|
  {
    forall j :: i <= j < k ==> !events[j].SrvAlarm?
  }

  lemma StepWindow(words: seq<string>, s: System, e: Event, s': System)
    requires Inv(words, s) && Next(words, s, e, s') && !e.SrvAlarm?
    ensures s'.server.ssthresh == s.server.ssthresh
    ensures s'.server.cwnd ==
            if !e.SrvAck? then s.server.cwnd
            else if s.server.ssthresh == -1 || s.server.cwnd < s.server.ssthresh then 2 * s.server.cwnd
            else s.server.cwnd + 1
  {
  }

  /** From any state of any run to the next timeout the window depends on its size, the
      threshold and the number of acknowledgements taken, and on nothing else. */
  lemma {:induction false} WindowLaw(words: seq<string>, run: seq<System>, events: seq<Event>, i: nat, k: nat, m: nat)
    requires IsRun(words, run, events) && i <= k <= |events| && NoAlarm(events, i, k)
    requires var s := run[i].server; s.ssthresh != -1 ==> Crosses(s.cwnd, s.ssthresh, m)
    ensures run[k].server.ssthresh == run[i].server.ssthresh
    ensures run[k].server.cwnd == Grown(run[i].server.cwnd, run[i].server.ssthresh, m, AcksTaken(events, i, k))
    decreases k
  {
    if i < k {
      WindowLaw(words, run, events, i, k - 1, m);
      RunInv(words, run, events, k - 1);
      StepWindow(words, run[k - 1], events[k - 1], run[k]);
      GrownStep(run[i].server.cwnd, run[i].server.ssthresh, m, AcksTaken(events, i, k - 1));
    }
  }

  /** Until the first timeout the window is a power of two: slow start alone. */
  lemma SlowStart(words: seq<string>, run: seq<System>, events: seq<Event>, k: nat)
    requires IsRun(words, run, events) && k <= |events| && NoAlarm(events, 0, k)
    ensures run[k].server.cwnd == Pow2(AcksTaken(events, 0, k)) && run[k].server.ssthresh == -1
  {
    WindowLaw(words, run, events, 0, k, 0);
  }

  /** After a timeout at window `w` that the sender survives, it starts from one again:
      powers of two up to the first that is at least half of `w`, then one more for
      every acknowledgement. */
  lemma AfterTimeout(words: seq<string>, run: seq<System>, events: seq<Event>, j: nat, k: nat, m: nat)
    requires IsRun(words, run, events) && j < k <= |events| && events[j].SrvAlarm? && NoAlarm(events, j + 1, k)
    requires !run[j + 1].server.phase.Over?
    requires Crosses(1, run[j].server.cwnd / 2, m)
    ensures var n := AcksTaken(events, j + 1, k);
            run[k].server.cwnd == if n <= m then Pow2(n) else Pow2(m) + (n - m)
    ensures run[k].server.ssthresh == run[j].server.cwnd / 2
  {
    RunInv(words, run, events, j);
    assert Next(words, run[j], events[j], run[j + 1]);
    WindowLaw(words, run, events, j + 1, k, m);
  }
}
