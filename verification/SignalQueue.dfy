/** The signal-driven echo server (unpv13e/sigio/dgecho01.c).

The SIGIO handler reads datagrams into an eight-slot ring; the main loop echoes
them. The handler runs to completion whenever SIGIO is not blocked: before the
main loop first blocks it, while the loop is suspended with an empty queue, and
anywhere between its unblocking and blocking calls, in the middle of a send or of
advancing `iget` included.
*/
module SignalQueue {

  const QSIZE: int := 8

  type Datagram = string

  /** Where the server stands: its handler installed and SIGIO not yet blocked, blocked
      at the top of the loop, unblocked, inside `sendto`, past it, past `++iget`, past
      the wrap test, or blocked again before `nqueue--`. */
  datatype Pc = Starting | Top | Open | InSend | Sent | Bumped | Wrapped | Closed

  /** `arrived` and `echoed` are what the handler has read and `sendto` has sent. */
  datatype State = State(dg: seq<Datagram>, iget: int, iput: int, nqueue: int, pc: Pc, quit: bool,
                         arrived: seq<Datagram>, echoed: seq<Datagram>)

  datatype Event = SigIo(batch: seq<Datagram>) | Main

  ghost predicate Initial(s: State) {
    |s.dg| == QSIZE && s == State(s.dg, 0, 0, 0, Starting, false, [], [])
  }

  function Advance(i: int): int {
    if i + 1 >= QSIZE then 0 else i + 1
  }

  /** One datagram stored by the handler. */
  function Put(s: State, d: Datagram): State
    requires 0 <= s.iput < |s.dg|
  {
    s.(dg := s.dg[s.iput := d], iput := Advance(s.iput), nqueue := s.nqueue + 1, arrived := s.arrived + [d])
  }

  /** The handler's loop over the datagrams waiting on the socket. The fullness test
      comes before every read, the last, empty one included. */
  function Handle(s: State, batch: seq<Datagram>): State
    decreases batch
  {
    if s.nqueue >= QSIZE then s.(quit := true)
    else if batch == [] then s
    else if 0 <= s.iput < |s.dg| then Handle(Put(s, batch[0]), batch[1..])
    else s
  }

  predicate Deliverable(s: State) {
    !s.quit && s.pc != Closed && (s.pc == Top ==> s.nqueue == 0)
  }

  ghost predicate Next(s: State, e: Event, s': State) {
    match e
    case SigIo(batch) => Deliverable(s) && s' == Handle(s, batch)
    case Main =>
      && !s.quit
      && match s.pc
         case Starting => s' == s.(pc := Top)
         case Top => s.nqueue != 0 && s' == s.(pc := Open)
         case Open => s' == s.(pc := InSend)
         case InSend => 0 <= s.iget < |s.dg| && s' == s.(pc := Sent, echoed := s.echoed + [s.dg[s.iget]])
         case Sent => s' == s.(pc := Bumped, iget := s.iget + 1)
         case Bumped => s' == s.(pc := Wrapped, iget := Advance(s.iget - 1))
         case Wrapped => s' == s.(pc := Closed)
         case Closed => s' == s.(pc := Top, nqueue := s.nqueue - 1)
  }

  ghost predicate IsRun(run: seq<State>, events: seq<Event>) {
    && |run| == |events| + 1 && Initial(run[0])
    && forall i :: 0 <= i < |events| ==> Next(run[i], events[i], run[i + 1])
  }

  /** Datagrams already taken off the queue's count. */
  function Retired(s: State): int {
    if s.pc.Sent? || s.pc.Bumped? || s.pc.Wrapped? || s.pc.Closed? then |s.echoed| - 1 else |s.echoed|
  }

  ghost predicate Inv(s: State) {
    && |s.dg| == QSIZE
    && 0 <= Retired(s) <= |s.arrived| <= Retired(s) + QSIZE
    && s.nqueue == |s.arrived| - Retired(s)
    && (s.pc == Starting || s.pc == Top || s.nqueue > 0)
    && s.iput == |s.arrived| % QSIZE
    && s.iget == (if s.pc == Sent then Retired(s) % QSIZE
                  else if s.pc == Bumped then Retired(s) % QSIZE + 1
                  else |s.echoed| % QSIZE)
    && |s.echoed| <= |s.arrived| && s.echoed == s.arrived[..|s.echoed|]
    && Stored(s.dg, s.arrived, Retired(s))
  }

  /** Slot q mod 8 holds arrival q, for every q not yet retired. */
  ghost predicate Stored(dg: seq<Datagram>, arrived: seq<Datagram>, from: int) {
    |dg| == QSIZE && 0 <= from && forall q :: from <= q < |arrived| ==> dg[q % QSIZE] == arrived[q]
  }

  lemma PutStored(dg: seq<Datagram>, arrived: seq<Datagram>, from: int, d: Datagram)
    requires Stored(dg, arrived, from) && from <= |arrived| < from + QSIZE
    ensures Stored(dg[|arrived| % QSIZE := d], arrived + [d], from)
  {
  }

  lemma AdvanceWraps(n: nat)
    ensures Advance(n % QSIZE) == (n + 1) % QSIZE
  {
  }

  lemma PutKeepsInv(s: State, d: Datagram)
    requires Inv(s) && s.nqueue < QSIZE
    ensures Inv(Put(s, d))
  {
    PutStored(s.dg, s.arrived, Retired(s), d);
    AdvanceWraps(|s.arrived|);
  }

  lemma {:induction false} HandleKeepsRing(s: State, batch: seq<Datagram>)
    requires Inv(s) && !s.quit
    ensures var s' := Handle(s, batch); Inv(s') && s'.pc == s.pc && s'.echoed == s.echoed && s'.iget == s.iget
    decreases |batch|
  {
    if s.nqueue < QSIZE && batch != [] {
      PutKeepsInv(s, batch[0]);
      HandleKeepsRing(Put(s, batch[0]), batch[1..]);
    }
  }

  lemma {:induction false} HandleTakesBatch(s: State, batch: seq<Datagram>)
    requires Inv(s) && !s.quit
    ensures var s' := Handle(s, batch);
            && s.arrived <= s'.arrived
            && (s'.quit <==> s.nqueue + |batch| >= QSIZE)
            && (!s'.quit ==> s'.arrived == s.arrived + batch)
    decreases |batch|
  {
    if s.nqueue < QSIZE && batch != [] {
      PutKeepsInv(s, batch[0]);
      HandleTakesBatch(Put(s, batch[0]), batch[1..]);
      assert batch == [batch[0]] + batch[1..];
      assert s.arrived + [batch[0]] + batch[1..] == s.arrived + batch;
    }
  }

  /** The handler keeps the queue in order, leaves the main loop's variables alone,
      and gives up exactly when the queue would end up full. */
  lemma HandleKeepsInv(s: State, batch: seq<Datagram>)
    requires Inv(s) && !s.quit
    ensures var s' := Handle(s, batch);
            && Inv(s') && s'.pc == s.pc && s'.echoed == s.echoed && s'.iget == s.iget
            && s.arrived <= s'.arrived
            && (s'.quit <==> s.nqueue + |batch| >= QSIZE)
            && (!s'.quit ==> s'.arrived == s.arrived + batch)
  {
    HandleKeepsRing(s, batch);
    HandleTakesBatch(s, batch);
  }

  /** A handler that gives up has first filled the queue with the head of its batch. */
  lemma {:induction false} QuitFillsQueue(s: State, batch: seq<Datagram>)
    requires Inv(s) && !s.quit && Handle(s, batch).quit
    ensures QSIZE - s.nqueue <= |batch|
    ensures Handle(s, batch).arrived == s.arrived + batch[..QSIZE - s.nqueue]
    decreases |batch|
  {
    if s.nqueue < QSIZE {
      PutKeepsInv(s, batch[0]);
      QuitFillsQueue(Put(s, batch[0]), batch[1..]);
      assert [batch[0]] + batch[1..][..QSIZE - s.nqueue - 1] == batch[..QSIZE - s.nqueue];
    }
  }

  lemma SendKeepsInv(s: State, s': State)
    requires Inv(s) && s.pc == InSend && Next(s, Main, s')
    ensures Inv(s')
  {
    assert s.dg[s.iget] == s.arrived[|s.echoed|];
  }

  lemma CloseKeepsInv(s: State, s': State)
    requires Inv(s) && s.pc == Closed && Next(s, Main, s')
    ensures Inv(s')
  {
  }

  lemma WrapKeepsInv(s: State, s': State)
    requires Inv(s) && s.pc == Bumped && Next(s, Main, s')
    ensures Inv(s')
  {
    AdvanceWraps(Retired(s));
  }

  lemma MoveKeepsInv(s: State, s': State)
    requires Inv(s) && s.pc != InSend && s.pc != Closed && s.pc != Bumped && Next(s, Main, s')
    ensures Inv(s')
  {
  }

  lemma NextKeepsInv(s: State, e: Event, s': State)
    requires Inv(s) && Next(s, e, s')
    ensures Inv(s')
  {
    if e.SigIo? { HandleKeepsInv(s, e.batch); }
    else if s.pc == InSend { SendKeepsInv(s, s'); }
    else if s.pc == Closed { CloseKeepsInv(s, s'); }
    else if s.pc == Bumped { WrapKeepsInv(s, s'); }
    else { MoveKeepsInv(s, s'); }
  }

  lemma {:induction false} RunInv(run: seq<State>, events: seq<Event>, i: nat)
    requires IsRun(run, events) && i < |run|
    ensures Inv(run[i])
  {
    if i > 0 {
      RunInv(run, events, i - 1);
      assert Next(run[i - 1], events[i - 1], run[i]);
      NextKeepsInv(run[i - 1], events[i - 1], run[i]);
    }
  }

  /** Under every interleaving, datagrams are echoed once each, in arrival order. */
  lemma EchoedInOrder(run: seq<State>, events: seq<Event>, i: nat)
    requires IsRun(run, events) && i < |run|
    ensures run[i].echoed <= run[i].arrived
    ensures run[i].nqueue == |run[i].arrived| - Retired(run[i])
  {
    RunInv(run, events, i);
  }

  /** The handler never overwrites the slot being sent. */
  lemma SlotSafeWhileSending(run: seq<State>, events: seq<Event>, i: nat)
    requires IsRun(run, events) && i < |events| && events[i].SigIo? && (run[i].pc == Open || run[i].pc == InSend)
    ensures run[i].iget == run[i + 1].iget
    ensures 0 <= run[i].iget < |run[i].dg| == |run[i + 1].dg|
    ensures |run[i].echoed| < |run[i].arrived|
    ensures run[i + 1].dg[run[i].iget] == run[i].dg[run[i].iget] == run[i].arrived[|run[i].echoed|]
  {
    RunInv(run, events, i);
    assert Next(run[i], events[i], run[i + 1]);
    HandleKeepsInv(run[i], events[i].batch);
    RunInv(run, events, i + 1);
    var k := |run[i].echoed|;
    assert run[i + 1].arrived[k] == run[i].arrived[k];
  }

  /** What the handler has read is what the socket delivered, in order. */
  function Delivered(events: seq<Event>): seq<Datagram> {
    if events == [] then []
    else Delivered(events[..|events| - 1]) + (match events[|events| - 1] case SigIo(b) => b case Main => [])
  }

  /** Unless the handler quit, no datagram was lost; and it quits exactly when a batch
      would fill the ring, so seven is the most the queue ever holds between signals. */
  lemma {:induction false} NothingLost(run: seq<State>, events: seq<Event>)
    requires IsRun(run, events) && !run[|events|].quit
    ensures run[|events|].arrived == Delivered(events)
    ensures run[|events|].nqueue < QSIZE
  {
    var n := |events| - 1;
    if events != [] {
      RunInv(run, events, n);
      assert Next(run[n], events[n], run[n + 1]);
      assert IsRun(run[..n + 1], events[..n]);
      if events[n].SigIo? { HandleKeepsInv(run[n], events[n].batch); }
      NothingLost(run[..n + 1], events[..n]);
    }
  }

  // ---- Everything gets echoed ----

  /** How many statements the main loop is away from sleeping on an empty queue. */
  function Left(s: State): int {
    8 * s.nqueue + match s.pc
                   case Starting => 1
                   case Top => 0
                   case Open => -1
                   case InSend => -2
                   case Sent => -3
                   case Bumped => -4
                   case Wrapped => -5
                   case Closed => -6
  }

  /** The main loop can take its next statement. */
  ghost predicate Ready(s: State) {
    && !s.quit && (s.pc == Top ==> s.nqueue != 0) && s.nqueue >= 0
    && (s.pc != Top && s.pc != Starting ==> s.nqueue > 0)
    && 0 <= s.iget <= QSIZE == |s.dg| && (s.pc == InSend ==> s.iget < QSIZE)
  }

  lemma InvReady(s: State)
    requires Inv(s) && !s.quit && (s.pc == Top ==> s.nqueue != 0)
    ensures Ready(s)
  {
  }

  /** One more statement of the main loop. */
  lemma MainStep(s: State) returns (s': State)
    requires Ready(s)
    ensures Next(s, Main, s') && !s'.quit && s'.arrived == s.arrived
    ensures 0 <= Left(s') < Left(s)
  {
    match s.pc
    case Starting => s' := s.(pc := Top);
    case Top => s' := s.(pc := Open);
    case Open => s' := s.(pc := InSend);
    case InSend => s' := s.(pc := Sent, echoed := s.echoed + [s.dg[s.iget]]);
    case Sent => s' := s.(pc := Bumped, iget := s.iget + 1);
    case Bumped => s' := s.(pc := Wrapped, iget := Advance(s.iget - 1));
    case Wrapped => s' := s.(pc := Closed);
    case Closed => s' := s.(pc := Top, nqueue := s.nqueue - 1);
  }

  lemma AsleepEchoedAll(s: State)
    requires Inv(s) && s.pc == Top && s.nqueue == 0
    ensures s.echoed == s.arrived
  {
  }

  lemma RunMore(run: seq<State>, events: seq<Event>, e: Event, s': State)
    requires IsRun(run, events) && Next(run[|events|], e, s')
    ensures IsRun(run + [s'], events + [e])
  {
    var run', events' := run + [s'], events + [e];
    forall i | 0 <= i < |events'| ensures Next(run'[i], events'[i], run'[i + 1]) {
      if i < |events| { assert Next(run[i], events[i], run[i + 1]); }
    }
  }

  /** From every state of every run the main loop alone, without another signal, echoes
      all that has arrived and goes to sleep, unless the handler has quit. */
  lemma {:induction false} EverythingEchoed(run: seq<State>, events: seq<Event>)
    returns (run': seq<State>, events': seq<Event>)
    requires IsRun(run, events) && !run[|events|].quit
    ensures IsRun(run', events') && run <= run' && events <= events'
    ensures forall i :: |events| <= i < |events'| ==> events'[i] == Main
    ensures var s := run'[|events'|];
            && s.pc == Top && s.nqueue == 0 && !s.quit && s.arrived == run[|events|].arrived == s.echoed
    decreases Left(run[|events|])
  {
    var s := run[|events|];
    RunInv(run, events, |events|);
    if s.pc == Top && s.nqueue == 0 {
      run', events' := run, events;
      AsleepEchoedAll(s);
    } else {
      InvReady(s);
      var s' := MainStep(s);
      RunMore(run, events, Main, s');
      run', events' := EverythingEchoed(run + [s'], events + [Main]);
      assert events + [Main] <= events';
    }
  }

  /** Asleep, the server takes any batch of up to seven datagrams. */
  lemma SleeperTakesBatch(s: State, batch: seq<Datagram>)
    requires Inv(s) && !s.quit && s.pc == Top && s.nqueue == 0 && |batch| < QSIZE
    ensures Next(s, SigIo(batch), Handle(s, batch)) && Handle(s, batch).arrived == s.arrived + batch
    ensures !Handle(s, batch).quit
  {
    HandleKeepsInv(s, batch);
  }

  function Rank(pc: Pc): int {
    match pc
    case Starting => 0
    case Top => 1
    case Open => 2
    case InSend => 3
    case Sent => 4
    case Bumped => 5
    case Wrapped => 6
    case Closed => 7
  }

  /** A run that ends at `pc`, short of the blocking call, with one datagram queued
      unless it is asleep. */
  lemma {:induction false} Arrives(pc: Pc) returns (run: seq<State>, events: seq<Event>)
    requires pc != Closed
    ensures IsRun(run, events) && run[|events|].pc == pc && !run[|events|].quit
    ensures run[|events|].nqueue == if pc == Starting || pc == Top then 0 else 1
    decreases Rank(pc)
  {
    if pc == Starting {
      var s := State(seq(QSIZE, _ => ""), 0, 0, 0, Starting, false, [], []);
      run, events := [s], [];
    } else {
      var before := match pc case Top => Starting case Open => Top case InSend => Open case Sent => InSend
                             case Bumped => Sent case Wrapped => Bumped;
      run, events := Arrives(before);
      if before == Top { run, events := OneArrives(run, events); }
      var s := run[|events|];
      RunInv(run, events, |events|);
      InvReady(s);
      var s' := MainStep(s);
      RunMore(run, events, Main, s');
      run, events := run + [s'], events + [Main];
    }
  }

  lemma OneArrives(run: seq<State>, events: seq<Event>) returns (run': seq<State>, events': seq<Event>)
    requires IsRun(run, events) && Deliverable(run[|events|]) && run[|events|].nqueue == 0
    ensures IsRun(run', events') && events' == events + [SigIo(["x"])] && run' == run + [run'[|events'|]]
    ensures var s, s' := run[|events|], run'[|events'|];
            s'.pc == s.pc && !s'.quit && s'.nqueue == 1 && s'.arrived == s.arrived + ["x"]
  {
    var s := run[|events|];
    RunInv(run, events, |events|);
    var s' := Handle(s, ["x"]);
    HandleKeepsInv(s, ["x"]);
    RunMore(run, events, SigIo(["x"]), s');
    run', events' := run + [s'], events + [SigIo(["x"])];
  }

  /** The interleavings are all there: at every position but the one behind the blocking
      call some run has the handler come in and store a datagram. */
  lemma HandlerComesIn(pc: Pc) returns (run: seq<State>, events: seq<Event>)
    requires pc != Closed
    ensures IsRun(run, events) && events != [] && events[|events| - 1] == SigIo(["x"])
    ensures var s, s' := run[|events| - 1], run[|events|]; s.pc == pc == s'.pc && s'.arrived == s.arrived + ["x"]
  {
    run, events := Arrives(pc);
    var s := run[|events|];
    RunInv(run, events, |events|);
    var s' := Handle(s, ["x"]);
    HandleKeepsInv(s, ["x"]);
    RunMore(run, events, SigIo(["x"]), s');
    run, events := run + [s'], events + [SigIo(["x"])];
  }

  /** The handler and main loop over the shared variables. */
  class EchoServer {
    const dg: array<Datagram>
    var iget: int
    var iput: int
    var nqueue: int
    var pc: Pc
    var quit: bool
    ghost var arrived: seq<Datagram>
    var echoed: seq<Datagram>

    ghost function View(): State
      reads this, dg
    {
      State(dg[..], iget, iput, nqueue, pc, quit, arrived, echoed)
    }

    constructor ()
      ensures Initial(View()) && Inv(View()) && fresh(dg)
    {
      dg := new Datagram[QSIZE](_ => "");
      iget, iput, nqueue, pc, quit := 0, 0, 0, Starting, false;
      arrived, echoed := [], [];
    }

    /** `sig_io`, given the datagrams `recvfrom` will return before it would block. */
    method OnSigIo(batch: seq<Datagram>)
      requires Inv(View()) && Deliverable(View())
      modifies this, dg
      ensures View() == Handle(old(View()), batch)
    {
      var nread := 0;
      while true
        invariant 0 <= nread <= |batch|
        invariant Inv(View()) && !quit
        invariant Handle(View(), batch[nread..]) == Handle(old(View()), batch)
        decreases |batch| - nread
      {
        ghost var s := View();
        if nqueue >= QSIZE {
          quit := true;
          return;
        }
        if nread == |batch| { break; }
        ghost var rest := batch[nread..];
        assert rest[0] == batch[nread] && rest[1..] == batch[nread + 1..];
        PutKeepsInv(s, batch[nread]);
        StoreNext(batch[nread]);
        assert Handle(s, rest) == Handle(Put(s, rest[0]), rest[1..]);
        nread := nread + 1;
      }
    }

    method StoreNext(d: Datagram)
      requires Inv(View())
      modifies this, dg
      ensures View() == Put(old(View()), d)
    {
      dg[iput] := d;
      arrived := arrived + [d];
      nqueue := nqueue + 1;
      iput := iput + 1;
      if iput >= QSIZE { iput := 0; }
    }

    /** The main loop's next statement. */
    method StepMain()
      requires Inv(View()) && !quit && (pc == Top ==> nqueue != 0)
      modifies this
      ensures Next(old(View()), Main, View()) && Inv(View())
    {
      NextMain(View());
      match pc
      case Starting => pc := Top;
      case Top => pc := Open;
      case Open => pc := InSend;
      case InSend =>
        echoed := echoed + [dg[iget]];
        pc := Sent;
      case Sent =>
        iget := iget + 1;
        pc := Bumped;
      case Bumped =>
        if iget >= QSIZE { iget := 0; }
        pc := Wrapped;
      case Wrapped => pc := Closed;
      case Closed =>
        nqueue := nqueue - 1;
        pc := Top;
    }
  }

  lemma NextMain(s: State)
    requires Inv(s)
    ensures forall s' :: Next(s, Main, s') ==> Inv(s')
  {
    forall s' | Next(s, Main, s') ensures Inv(s') { NextKeepsInv(s, Main, s'); }
  }
}
