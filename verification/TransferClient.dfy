/** The receiving end of the file transfer (hw2/client.c).

`Client` is what the receiver means: the lines accepted in order, and how many
of them the reader has printed. `Receiver` is what it does: a ring of `rwnd`
slots filled by the receive loop and emptied by the reader thread. Both threads
hold the mutex, so each method is one atomic step.
*/
module TransferClient {

  const INT_MAX: int := 0x7fff_ffff
  const EOF_LINE := "End of File!"

  datatype Kind = Ack | Ping | Data | Eof

  datatype Packet = Packet(kind: Kind, seqno: int, text: string)

  // ---- The receiver as a queue ----

  datatype Client = Client(rwnd: int, accepted: seq<string>, drained: nat)

  ghost predicate ClientOk(c: Client) {
    c.rwnd > 0 && c.drained <= |c.accepted| <= c.drained + c.rwnd
  }

  function Window(c: Client): int {
    c.rwnd - (|c.accepted| - c.drained)
  }

  function Line(p: Packet): string {
    if p.kind == Eof then EOF_LINE else p.text
  }

  /** A data or end-of-file packet is accepted exactly when it carries the expected
      number and the advertised window is open. */
  function Receive(c: Client, p: Packet): Client {
    if (p.kind == Data || p.kind == Eof) && p.seqno == |c.accepted| && Window(c) > 0
    then c.(accepted := c.accepted + [Line(p)])
    else c
  }

  /** One reader pass prints up to the end of the slot array. */
  function Drain(c: Client): Client
    requires c.rwnd > 0
  {
    var stop := c.drained + (c.rwnd - c.drained % c.rwnd);
    c.(drained := if stop < |c.accepted| then stop else |c.accepted|)
  }

  function ReceiveAll(c: Client, ps: seq<Packet>): Client {
    if ps == [] then c else Receive(ReceiveAll(c, ps[..|ps| - 1]), ps[|ps| - 1])
  }

  /** The lines the packets would print. */
  function Lines(ps: seq<Packet>): (ls: seq<string>)
    ensures |ls| == |ps|
    ensures forall i :: 0 <= i < |ps| ==> ls[i] == if ps[i].kind == Eof then "End of File!" else ps[i].text
  {
    if ps == [] then [] else Lines(ps[..|ps| - 1]) + [Line(ps[|ps| - 1])]
  }

  /** Data or end-of-file packets with the numbers from `first` on. */
  ghost predicate InOrder(ps: seq<Packet>, first: int) {
    forall i :: 0 <= i < |ps| ==> (ps[i].kind == Data || ps[i].kind == Eof) && ps[i].seqno == first + i
  }

  lemma {:induction false} AllAccepted(c: Client, ps: seq<Packet>)
    requires ClientOk(c) && InOrder(ps, |c.accepted|) && |ps| <= Window(c)
    ensures ReceiveAll(c, ps) == c.(accepted := c.accepted + Lines(ps))
  {
    if ps == [] {
      assert c.accepted + Lines(ps) == c.accepted;
    } else {
      var n := |ps| - 1;
      AllAccepted(c, ps[..n]);
      assert c.accepted + Lines(ps) == c.accepted + Lines(ps[..n]) + [Line(ps[n])];
    }
  }

  /** The advertised window is exact: of the packets with the next numbers, in order and
      with nothing printed meanwhile, that many are accepted and no more. */
  lemma {:induction false} WindowIsCapacity(c: Client, ps: seq<Packet>)
    requires ClientOk(c) && InOrder(ps, |c.accepted|)
    ensures var k := if |ps| < Window(c) then |ps| else Window(c);
            k >= 0 && ReceiveAll(c, ps) == c.(accepted := c.accepted + Lines(ps[..k]))
  {
    if |ps| <= Window(c) {
      AllAccepted(c, ps);
      assert ps[..|ps|] == ps;
    } else {
      var n := |ps| - 1;
      WindowIsCapacity(c, ps[..n]);
      assert ps[..n][..Window(c)] == ps[..Window(c)];
    }
  }

  // ---- The ring of slots ----

  datatype Slot = Slot(data: string, filled: bool, seqno: int)

  /** Numbers lo..hi sit in the ring, number q in slot q mod rwnd, and nothing else does. */
  ghost predicate Ring(slots: seq<Slot>, accepted: seq<string>, lo: int, hi: int) {
    && 0 <= lo <= hi <= |accepted| && |slots| > 0
    && (forall i :: 0 <= i < |slots| && slots[i].filled ==>
          lo <= slots[i].seqno < hi && slots[i].seqno % |slots| == i && slots[i].data == accepted[slots[i].seqno])
    && (forall q :: lo <= q < hi ==> Holds(slots, q))
  }

  ghost predicate Holds(slots: seq<Slot>, q: int)
    requires |slots| > 0
  {
    slots[q % |slots|].filled && slots[q % |slots|].seqno == q
  }

  lemma MulMonotone(r: int, a: int, b: int)
    requires r > 0 && a <= b
    ensures r * a <= r * b
  {
  }

  /** Quotient and remainder are unique. */
  lemma DivModUnique(r: int, a: int, m: int)
    requires r > 0 && 0 <= m < r
    ensures (r * a + m) / r == a && (r * a + m) % r == m
  {
    var x := r * a + m;
    var b := x / r;
    assert x == r * b + x % r;
    if b < a {
      MulMonotone(r, b + 1, a);
    } else if b > a {
      MulMonotone(r, a + 1, b);
    }
  }

  lemma SameSlot(r: int, p: int, q: int)
    requires r > 0 && p % r == q % r && p <= q < p + r
    ensures p == q
  {
    var a := p / r;
    assert p == r * a + p % r;
    if q - p + p % r < r {
      DivModUnique(r, a, q - p + p % r);
    } else {
      assert q == r * (a + 1) + (q - p + p % r - r);
      DivModUnique(r, a + 1, q - p + p % r - r);
    }
  }

  lemma NextSlot(r: int, p: int, k: nat)
    requires r > 0 && p % r + k < r
    ensures (p + k) % r == p % r + k
  {
    assert p + k == r * (p / r) + (p % r + k);
    DivModUnique(r, p / r, p % r + k);
  }

  lemma WrapSlot(r: int, p: int)
    requires r > 0
    ensures (p + r) % r == p % r
  {
    assert p + r == r * (p / r + 1) + p % r;
    DivModUnique(r, p / r + 1, p % r);
  }

  function FilledCount(slots: seq<Slot>): nat {
    if slots == [] then 0 else FilledCount(slots[..|slots| - 1]) + (if slots[|slots| - 1].filled then 1 else 0)
  }

  lemma {:induction false} FilledNone(slots: seq<Slot>)
    requires forall i :: 0 <= i < |slots| ==> !slots[i].filled
    ensures FilledCount(slots) == 0
  {
    if slots != [] { FilledNone(slots[..|slots| - 1]); }
  }

  lemma {:induction false} FilledUpdate(slots: seq<Slot>, i: nat, s: Slot)
    requires i < |slots| && slots[i].filled && !s.filled
    ensures FilledCount(slots[i := s]) == FilledCount(slots) - 1
  {
    var n := |slots| - 1;
    if i < n {
      assert slots[i := s][..n] == slots[..n][i := s];
      FilledUpdate(slots[..n], i, s);
    } else {
      assert slots[i := s][..n] == slots[..n];
    }
  }

  /** The occupied slots number exactly the lines waiting to be printed. */
  lemma {:induction false} RingCount(slots: seq<Slot>, accepted: seq<string>, lo: int, hi: int)
    requires Ring(slots, accepted, lo, hi) && hi - lo <= |slots|
    ensures FilledCount(slots) == hi - lo
    decreases hi - lo
  {
    if lo == hi {
      FilledNone(slots);
    } else {
      assert Holds(slots, lo);
      DropOldest(slots, accepted, lo, hi);
      RingCount(slots[lo % |slots| := Slot("", false, lo)], accepted, lo + 1, hi);
      FilledUpdate(slots, lo % |slots|, Slot("", false, lo));
    }
  }

  lemma DropOldest(slots: seq<Slot>, accepted: seq<string>, lo: int, hi: int)
    requires Ring(slots, accepted, lo, hi) && lo < hi && hi - lo <= |slots|
    ensures forall s: Slot :: !s.filled ==> Ring(slots[lo % |slots| := s], accepted, lo + 1, hi)
  {
    var r := |slots|;
    assert Holds(slots, lo);
    forall s: Slot | !s.filled ensures Ring(slots[lo % r := s], accepted, lo + 1, hi) {
      var slots' := slots[lo % r := s];
      forall q | lo + 1 <= q < hi ensures Holds(slots', q) {
        assert Holds(slots, q);
        if q % r == lo % r { SameSlot(r, lo, q); }
      }
    }
  }

  /** The slot for the next number is free exactly while the ring is not full. */
  lemma NextFreeIff(slots: seq<Slot>, accepted: seq<string>, lo: int, hi: int)
    requires Ring(slots, accepted, lo, hi) && hi - lo <= |slots|
    ensures !slots[hi % |slots|].filled <==> hi - lo < |slots|
  {
    var r := |slots|;
    if slots[hi % r].filled && hi - lo < r {
      SameSlot(r, slots[hi % r].seqno, hi);
    }
    if hi - lo == r {
      assert Holds(slots, lo);
      assert hi % r == lo % r by { WrapSlot(r, lo); }
    }
  }

  lemma AppendRing(slots: seq<Slot>, accepted: seq<string>, lo: int, line: string)
    requires Ring(slots, accepted, lo, |accepted|) && |accepted| - lo < |slots|
    requires !slots[|accepted| % |slots|].filled
    ensures Ring(slots[|accepted| % |slots| := Slot(line, true, |accepted|)], accepted + [line], lo, |accepted| + 1)
  {
    var r, hi := |slots|, |accepted|;
    var slots' := slots[hi % r := Slot(line, true, hi)];
    forall q | lo <= q < hi + 1 ensures Holds(slots', q) {
      if q < hi { assert Holds(slots, q); }
    }
  }

  /** Where the reader's sweep from slot lo mod r stands at slot `i`: the slot is
      occupied exactly while lines are left, and then by the next one. */
  lemma SweepAt(slots: seq<Slot>, accepted: seq<string>, lo: int, next: int, hi: int, i: int)
    requires 0 <= lo < hi && Ring(slots, accepted, next, hi) && lo % |slots| <= i < |slots|
    requires next == if lo + (i - lo % |slots|) < hi then lo + (i - lo % |slots|) else hi
    ensures slots[i].filled <==> next < hi
    ensures next < hi ==> next % |slots| == i && slots[i].data == accepted[next]
  {
    if next < hi {
      NextSlot(|slots|, lo, i - lo % |slots|);
      assert Holds(slots, next);
    }
  }

  class Receiver {
    const slots: array<Slot>
    var expected: int
    var printed: seq<string>
    ghost var accepted: seq<string>

    /** Everything but the receive loop's own counter. */
    ghost predicate RingOk()
      reads this, slots
    {
      && 0 < slots.Length
      && |printed| <= |accepted| <= |printed| + slots.Length
      && |accepted| <= INT_MAX
      && printed == accepted[..|printed|]
      && Ring(slots[..], accepted, |printed|, |accepted|)
    }

    ghost predicate Valid()
      reads this, slots
    {
      RingOk() && expected == |accepted|
    }

    ghost function State(): Client
      reads this, slots
    {
      Client(slots.Length, accepted, |printed|)
    }

    constructor (rwnd: int)
      requires rwnd > 0
      ensures Valid() && fresh(slots)
      ensures State() == Client(rwnd, [], 0) && printed == []
    {
      slots := new Slot[rwnd](_ => Slot("", false, 0));
      expected := 0;
      printed := [];
      accepted := [];
    }

    /** `ispresent` */
    method IsPresent(seqno: int) returns (yes: bool)
      requires RingOk()
      ensures yes <==> |printed| <= seqno < |accepted|
    {
      yes := false;
      for i := 0 to slots.Length
        invariant forall j :: 0 <= j < i ==> !(slots[j].filled && slots[j].seqno == seqno)
      {
        if slots[i].filled && slots[i].seqno == seqno { return true; }
      }
      assert |printed| <= seqno < |accepted| ==> Holds(slots[..], seqno);
    }

    /** `min_seq_num`: the slot of the oldest unprinted line, slot 0 if there is none. */
    method MinSeqNum() returns (index: int)
      requires RingOk()
      ensures 0 <= index < slots.Length
      ensures |printed| < |accepted| ==> index == |printed| % slots.Length
      ensures |printed| == |accepted| ==> index == 0
    {
      var least := INT_MAX;
      index := 0;
      for i := 0 to slots.Length
        invariant 0 <= index < slots.Length
        invariant least <= INT_MAX
        invariant least == INT_MAX ==> index == 0 && forall j :: 0 <= j < i ==> !slots[j].filled
        invariant least < INT_MAX ==> slots[index].filled && slots[index].seqno == least
        invariant forall j :: 0 <= j < i && slots[j].filled ==> least <= slots[j].seqno
      {
        if slots[i].filled && least > slots[i].seqno {
          index := i;
          least := slots[i].seqno;
        }
      }
      if |printed| < |accepted| { assert Holds(slots[..], |printed|); }
    }

    /** `update_expected_seq_num` */
    method UpdateExpected()
      requires RingOk()
      requires |printed| <= expected <= |accepted|
      modifies this`expected
      ensures Valid()
    {
      var present := IsPresent(expected);
      while present
        invariant |printed| <= expected <= |accepted|
        invariant present <==> expected < |accepted|
        decreases |accepted| - expected
      {
        expected := expected + 1;
        present := IsPresent(expected);
      }
    }

    /** `push_data_to_buffer` */
    method Push(line: string, seqno: int)
      requires Valid()
      requires seqno >= 0 && |accepted| < INT_MAX
      modifies slots, this`accepted
      ensures RingOk() && printed == old(printed)
      ensures accepted == if seqno == expected && Window(old(State())) > 0 then old(accepted) + [line]
                          else old(accepted)
    {
      var i := seqno % slots.Length;
      ghost var before := slots[..];
      NextFreeIff(before, accepted, |printed|, |accepted|);
      if !slots[i].filled {
        if seqno != expected { return; }
        slots[i] := Slot(line, true, seqno);
        AppendRing(before, accepted, |printed|, line);
        assert slots[..] == before[i := slots[i]];
        accepted := accepted + [line];
      }
    }

    /** `get_window_size` */
    method GetWindowSize() returns (count: int)
      requires RingOk()
      ensures count == Window(State())
    {
      count := 0;
      for i := 0 to slots.Length
        invariant count == i - FilledCount(slots[..i])
      {
        assert slots[..i + 1][..i] == slots[..i];
        if !slots[i].filled { count := count + 1; }
      }
      assert slots[..slots.Length] == slots[..];
      RingCount(slots[..], accepted, |printed|, |accepted|);
    }

    /** One turn of the receive loop, from lock to unlock: the acknowledgement sent
        back, and whether the end of the file was reached. */
    method OnPacket(p: Packet) returns (ack: int, window: int, finished: bool)
      requires Valid()
      requires p.kind == Data || p.kind == Eof ==> p.seqno >= 0
      requires |accepted| < INT_MAX
      modifies this`expected, this`accepted, slots
      ensures Valid() && printed == old(printed)
      ensures State() == Receive(old(State()), p)
      ensures ack == |accepted| && window == Window(State())
      ensures finished <==> p.kind == Eof && p.seqno + 1 == |accepted|
    {
      if p.kind == Data {
        Push(p.text, p.seqno);
      } else if p.kind == Eof {
        Push(EOF_LINE, p.seqno);
      }
      UpdateExpected();
      ack := expected;
      window := GetWindowSize();
      finished := p.kind == Eof && p.seqno + 1 == expected;
    }

    /** One pass of the reader thread (and the final pass in `main`). Printing is
        appending to `printed`. */
    method ReaderPass()
      requires Valid()
      modifies this`printed, slots
      ensures Valid() && accepted == old(accepted)
      ensures State() == Drain(old(State()))
      ensures old(printed) <= printed <= accepted
    {
      ghost var lo, hi, r := |printed|, |accepted|, slots.Length;
      var start := MinSeqNum();
      for i := start to slots.Length
        invariant RingOk() && expected == |accepted| == hi
        invariant lo == hi ==> |printed| == lo
        invariant lo < hi ==> start == lo % r
        invariant lo < hi ==> |printed| == if lo + (i - start) < hi then lo + (i - start) else hi
      {
        ghost var before := slots[..];
        if lo < hi {
          SweepAt(before, accepted, lo, |printed|, hi, i);
          if |printed| < hi { DropOldest(before, accepted, |printed|, hi); }
        }
        if slots[i].filled {
          printed := printed + [slots[i].data];
          slots[i] := Slot("", false, slots[i].seqno);
          assert slots[..] == before[i := slots[i]];
        }
      }
      assert lo < hi ==> 0 <= lo % r < r;
    }
  }
}
