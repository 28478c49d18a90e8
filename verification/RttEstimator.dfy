/** The retransmission-timeout estimator (hw2/rtt.c, constants in hw2/unprtt.h).

Floats are exact reals here; the truncating integer steps are the source's. */
module RttEstimator {

  const RXTMIN: int := 1000
  const RXTMAX: int := 3000
  const MAXNREXMT: int := 12

  datatype Rtt = Rtt(rtt: int, srtt: real, rttvar: real, rto: int, nrexmt: int)

  /** Conversion of a float to `int`: toward zero. */
  function Trunc(x: real): int {
    if x >= 0.0 then x.Floor else -((-x).Floor)
  }

  /** C integer division: toward zero. */
  function Div(a: int, b: int): int
    requires b > 0
  {
    if a >= 0 then a / b else -(-a / b)
  }

  function MinMax(rto: int): int {
    if rto < RXTMIN then RXTMIN else if rto > RXTMAX then RXTMAX else rto
  }

  function Abs(x: int): int {
    if x < 0 then -x else x
  }

  function Init(p: Rtt): Rtt {
    p.(rtt := 0, srtt := 0.0, rttvar := 0.75, rto := MinMax(Trunc(0.0 + 4.0 * 0.75)))
  }

  function Delta(p: Rtt, ms: int): int {
    Trunc(ms as real - p.srtt)
  }

  function Stop(p: Rtt, ms: int): Rtt {
    var delta := Delta(p, ms);
    var srtt := p.srtt + Div(delta, 8) as real;
    var rttvar := p.rttvar + (Abs(delta) as real - p.rttvar) / 4.0;
    p.(rtt := ms, srtt := srtt, rttvar := rttvar, rto := MinMax(Trunc(srtt + 4.0 * rttvar)))
  }

  /** Doubling, clamped; the second part is whether it is time to give up. */
  function Timeout(p: Rtt): (Rtt, bool) {
    (p.(rto := MinMax(p.rto * 2), nrexmt := p.nrexmt + 1), p.nrexmt + 1 > MAXNREXMT)
  }

  datatype Event = Reset | NewPack | Sample(ms: int) | Expire

  function Step(p: Rtt, e: Event): Rtt {
    match e
    case Reset => Init(p)
    case NewPack => p.(nrexmt := 0)
    case Sample(ms) => Stop(p, ms)
    case Expire => Timeout(p).0
  }

  function Run(p: Rtt, es: seq<Event>): Rtt {
    if es == [] then p else Step(Run(p, es[..|es| - 1]), es[|es| - 1])
  }

  predicate Bounded(p: Rtt, top: int) {
    && p.srtt == p.srtt.Floor as real && 0.0 <= p.srtt <= top as real
    && 0.0 <= p.rttvar && (p.rttvar <= top as real || p.rttvar <= 0.75)
    && RXTMIN <= p.rto <= RXTMAX
  }

  lemma StopKeepsBounds(p: Rtt, ms: int, top: int)
    requires Bounded(p, top) && 0 <= ms <= top
    ensures Bounded(Stop(p, ms), top)
    ensures Delta(p, ms) == ms - p.srtt.Floor
  {
    var s := p.srtt.Floor;
    assert ms as real - p.srtt == (ms - s) as real;
    assert Delta(p, ms) == ms - s;
    var q := s + Div(ms - s, 8);
    assert Stop(p, ms).srtt == q as real;
    assert 0 <= q <= top;
  }

  /** After initialisation, over any mix of resets, samples up to `top`, new packets
      and timeouts, the estimators stay in range. */
  lemma {:induction false} AlwaysBounded(p: Rtt, es: seq<Event>, top: int)
    requires top >= 0
    requires forall i :: 0 <= i < |es| && es[i].Sample? ==> 0 <= es[i].ms <= top
    ensures Bounded(Run(Init(p), es), top)
  {
    if es != [] {
      var n := |es| - 1;
      AlwaysBounded(p, es[..n], top);
      if es[n].Sample? { StopKeepsBounds(Run(Init(p), es[..n]), es[n].ms, top); }
    }
  }

  /** The integer step has a dead band: a sample moves the smoothed estimate exactly
      when it is at least 8 ms away, always towards the sample and never past it. */
  lemma MovesIffEightAway(p: Rtt, ms: int, top: int)
    requires Bounded(p, top) && 0 <= ms <= top
    ensures Stop(p, ms).srtt != p.srtt <==> Abs(ms - p.srtt.Floor) >= 8
    ensures Abs(ms - Stop(p, ms).srtt.Floor) == Abs(ms - p.srtt.Floor) - Abs(ms - p.srtt.Floor) / 8
  {
    StopKeepsBounds(p, ms, top);
    var s := p.srtt.Floor;
    assert Stop(p, ms).srtt == (s + Div(ms - s, 8)) as real;
  }

  function Repeat(p: Rtt, ms: int, n: nat): Rtt {
    if n == 0 then p else Stop(Repeat(p, ms, n - 1), ms)
  }

  /** Under a steady round trip the estimate settles within 7 ms of it, after at most
      as many samples as it was milliseconds away, and then stays put. */
  lemma {:induction false} SteadySettles(p: Rtt, ms: int, top: int, n: nat)
    requires Bounded(p, top) && 0 <= ms <= top
    ensures Bounded(Repeat(p, ms, n), top)
    ensures var d := Abs(ms - Repeat(p, ms, n).srtt.Floor); d <= 7 || d + n <= Abs(ms - p.srtt.Floor)
  {
    if n > 0 {
      SteadySettles(p, ms, top, n - 1);
      var q := Repeat(p, ms, n - 1);
      StopKeepsBounds(q, ms, top);
      MovesIffEightAway(q, ms, top);
    }
  }

  /** The new timeout is the new estimate plus four times the new deviation, cut to an
      integer between the two limits; a quarter of the new deviation is the sample's. */
  lemma TimeoutFromEstimate(p: Rtt, ms: int, top: int)
    requires Bounded(p, top) && 0 <= ms <= top
    ensures var q := Stop(p, ms); var x := q.srtt + 4.0 * q.rttvar;
            && 4.0 * q.rttvar == 3.0 * p.rttvar + Abs(ms - p.srtt.Floor) as real
            && (x <= 1000.0 ==> q.rto == 1000) && (x >= 3000.0 ==> q.rto == 3000)
            && (1000.0 <= x <= 3000.0 ==> x - 1.0 < q.rto as real <= x)
  {
    StopKeepsBounds(p, ms, top);
    var q := Stop(p, ms);
    var d := Abs(ms - p.srtt.Floor) as real;
    assert q.rttvar == p.rttvar + (d - p.rttvar) / 4.0;
    var x := q.srtt + 4.0 * q.rttvar;
    assert Trunc(x) == x.Floor && q.rto == MinMax(x.Floor);
  }

  /** What is left of `x` after losing a quarter `n` times. */
  function Fade(x: real, n: nat): real {
    if n == 0 then x else 0.75 * Fade(x, n - 1)
  }

  lemma SteadyStep(q: Rtt, ms: int, top: int)
    requires Bounded(q, top) && 0 <= ms <= top && Abs(ms - q.srtt.Floor) <= 7
    ensures Bounded(Stop(q, ms), top) && Stop(q, ms).srtt == q.srtt
    ensures var d := Abs(ms - q.srtt.Floor) as real; Stop(q, ms).rttvar - d == 0.75 * (q.rttvar - d)
  {
    StopKeepsBounds(q, ms, top);
    MovesIffEightAway(q, ms, top);
    TimeoutFromEstimate(q, ms, top);
  }

  /** Within 7 ms of a steady round trip the estimate stands still, and the deviation
      goes to the remaining distance, losing a quarter of the rest with every sample. */
  lemma {:induction false} SteadyDeviation(p: Rtt, ms: int, top: int, n: nat)
    requires Bounded(p, top) && 0 <= ms <= top && Abs(ms - p.srtt.Floor) <= 7
    ensures Bounded(Repeat(p, ms, n), top) && Repeat(p, ms, n).srtt == p.srtt
    ensures var d := Abs(ms - p.srtt.Floor) as real;
            Repeat(p, ms, n).rttvar == d + Fade(p.rttvar - d, n)
  {
    if n > 0 {
      SteadyDeviation(p, ms, top, n - 1);
      SteadyStep(Repeat(p, ms, n - 1), ms, top);
    }
  }

  // ---- Backing off ----

  function Timeouts(p: Rtt, n: nat): Rtt {
    if n == 0 then p else Timeout(Timeouts(p, n - 1)).0
  }

  function Doubled(rto: int, n: nat): int {
    if n == 0 then rto else 2 * Doubled(rto, n - 1)
  }

  lemma {:induction false} DoubledGrows(rto: int, n: nat)
    requires rto >= 0
    ensures Doubled(rto, n) >= rto
  {
    if n > 0 { DoubledGrows(rto, n - 1); }
  }

  /** After `n` timeouts in a row the timeout has doubled `n` times, but for the
      ceiling, and nothing else has moved; the next one gives up exactly when twelve
      retransmissions have been counted. */
  lemma {:induction false} TimeoutsBackOff(p: Rtt, n: nat)
    requires RXTMIN <= p.rto <= RXTMAX
    ensures var q := Timeouts(p, n); var most := Doubled(p.rto, n);
            && q == p.(rto := if most < RXTMAX then most else RXTMAX, nrexmt := p.nrexmt + n)
            && (Timeout(q).1 <==> p.nrexmt + n >= MAXNREXMT)
  {
    DoubledGrows(p.rto, n);
    if n > 0 {
      TimeoutsBackOff(p, n - 1);
      DoubledGrows(p.rto, n - 1);
    }
  }

  /** The estimator updated in place. */
  class Estimator {
    var rtt: int
    var srtt: real
    var rttvar: real
    var rto: int
    var nrexmt: int

    ghost function View(): Rtt
      reads this
    {
      Rtt(rtt, srtt, rttvar, rto, nrexmt)
    }

    constructor ()
      ensures View() == Init(Rtt(0, 0.0, 0.0, 0, 0)) == Rtt(0, 0.0, 0.75, 1000, 0)
    {
      rtt, srtt, rttvar, nrexmt := 0, 0.0, 0.75, 0;
      rto := MinMax(Trunc(0.0 + 4.0 * 0.75));
    }

    /** One sample; the estimators stay in range whatever bounds the samples. */
    method RttStop(ms: int)
      modifies this
      ensures View() == Stop(old(View()), ms)
      ensures forall top :: Bounded(old(View()), top) && 0 <= ms <= top ==> Bounded(View(), top)
    {
      forall top | Bounded(View(), top) && 0 <= ms <= top ensures Bounded(Stop(View(), ms), top) {
        StopKeepsBounds(View(), ms, top);
      }
      rtt := ms;
      var delta := Trunc(rtt as real - srtt);
      srtt := srtt + Div(delta, 8) as real;
      if delta < 0 { delta := -delta; }
      rttvar := rttvar + (delta as real - rttvar) / 4.0;
      rto := MinMax(Trunc(srtt + 4.0 * rttvar));
    }

    method RttTimeout() returns (giveUp: bool)
      modifies this
      ensures (View(), giveUp) == Timeout(old(View()))
      ensures forall top :: Bounded(old(View()), top) ==> Bounded(View(), top)
    {
      rto := rto * 2;
      rto := MinMax(rto);
      nrexmt := nrexmt + 1;
      giveUp := nrexmt > MAXNREXMT;
    }
  }
}
