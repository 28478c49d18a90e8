/** The clients waiting at a daemon (hw3/common.c, hw3/odr.c): `main` puts every
request into a buffer of 100 slots, and an answer that reaches its target is handed
to the first waiting client that asked for the address it comes from.

The functions say what the two scans over the slots do; `ClientBuffer` runs them.
*/
module OdrBuffer {
  import opened Basics
  import opened RoutingTable

  const BUFFER_SIZE: nat := 100

  datatype Slot = Slot(dest: Ip, port: string, busy: bool)

  datatype Client = Client(dest: Ip, port: string)

  function Holding(slot: Slot): multiset<Client> {
    if slot.busy then multiset{Client(slot.dest, slot.port)} else multiset{}
  }

  /** The clients in the busy slots. */
  function Pending(slots: seq<Slot>): multiset<Client> {
    if slots == [] then multiset{} else Pending(slots[..|slots| - 1]) + Holding(slots[|slots| - 1])
  }

  lemma Exchange<T>(p: multiset<T>, q: multiset<T>, a: multiset<T>, b: multiset<T>, c: multiset<T>)
    requires p + a == q + b
    ensures p + c + a == q + c + b
  {
    assert p + c + a == (p + a) + c && q + c + b == (q + b) + c;
  }

  lemma Swap<T>(f: multiset<T>, a: multiset<T>, b: multiset<T>)
    ensures f + b + a == f + a + b && f + (a + b) == f + a + b
  {
  }

  lemma PendingLast(front: seq<Slot>, x: Slot)
    ensures Pending(front + [x]) == Pending(front) + Holding(x)
  {
    var all := front + [x];
    assert all[..|all| - 1] == front;
  }

  lemma {:induction false} PendingUpdate(slots: seq<Slot>, i: nat, x: Slot)
    requires i < |slots|
    ensures Pending(slots[i := x]) + Holding(slots[i]) == Pending(slots) + Holding(x)
    decreases |slots|
  {
    var n := |slots| - 1;
    var front, last := slots[..n], slots[n];
    assert slots == front + [last];
    PendingLast(front, last);
    if i == n {
      assert slots[i := x] == front + [x];
      PendingLast(front, x);
      Swap(Pending(front), Holding(last), Holding(x));
    } else {
      assert slots[i := x] == front[i := x] + [last];
      PendingLast(front[i := x], last);
      PendingUpdate(front, i, x);
      Exchange(Pending(front[i := x]), Pending(front), Holding(slots[i]), Holding(x), Holding(last));
    }
  }

  lemma {:induction false} PendingMember(slots: seq<Slot>, c: Client)
    ensures c in Pending(slots) <==> exists i :: 0 <= i < |slots| && slots[i] == Slot(c.dest, c.port, true)
  {
    if slots != [] {
      var n := |slots| - 1;
      PendingMember(slots[..n], c);
      if i :| 0 <= i < |slots| && slots[i] == Slot(c.dest, c.port, true) {
        if i < n { assert slots[..n][i] == slots[i]; }
      }
    }
  }

  lemma {:induction false} PendingSize(slots: seq<Slot>)
    ensures |Pending(slots)| <= |slots|
    ensures (forall i :: 0 <= i < |slots| ==> slots[i].busy) ==> |Pending(slots)| == |slots|
  {
    if slots != [] {
      var n := |slots| - 1;
      PendingSize(slots[..n]);
      assert |Holding(slots[n])| == if slots[n].busy then 1 else 0;
    }
  }

  predicate Asks(slot: Slot, src: Ip) {
    slot.dest == src && slot.busy
  }

  lemma NobodyAsks(slots: seq<Slot>, src: Ip)
    requires forall j :: 0 <= j < |slots| ==> !Asks(slots[j], src)
    ensures forall c :: c in Pending(slots) ==> c.dest != src
  {
    forall c | c in Pending(slots) ensures c.dest != src { PendingMember(slots, c); }
  }

  /** What `init_buffer` leaves. */
  function BlankBuffer(): (slots: seq<Slot>)
    ensures |slots| == BUFFER_SIZE && forall i :: 0 <= i < |slots| ==> slots[i] == Slot("", "", false)
  {
    seq(BUFFER_SIZE, _ => Slot("", "", false))
  }

  lemma BlankIsEmpty()
    ensures Pending(BlankBuffer()) == multiset{}
  {
    NoneBusy(BlankBuffer());
  }

  lemma {:induction false} NoneBusy(slots: seq<Slot>)
    requires forall i :: 0 <= i < |slots| ==> !slots[i].busy
    ensures Pending(slots) == multiset{}
  {
    if slots != [] { NoneBusy(slots[..|slots| - 1]); }
  }

  // ---- The two scans ----

  /** The first free slot from `i` on, or the end. */
  function FreeFrom(slots: seq<Slot>, i: nat): (k: nat)
    requires i <= |slots|
    ensures i <= k <= |slots|
    ensures forall j :: i <= j < k ==> slots[j].busy
    ensures k < |slots| ==> !slots[k].busy
    decreases |slots| - i
  {
    if i == |slots| || !slots[i].busy then i else FreeFrom(slots, i + 1)
  }

  /** The first slot from `i` on whose client waits for `src`, or the end. */
  function AskerFrom(slots: seq<Slot>, src: Ip, i: nat): (k: nat)
    requires i <= |slots|
    ensures i <= k <= |slots|
    ensures forall j :: i <= j < k ==> !Asks(slots[j], src)
    ensures k < |slots| ==> Asks(slots[k], src)
    decreases |slots| - i
  {
    if i == |slots| || Asks(slots[i], src) then i else AskerFrom(slots, src, i + 1)
  }

  /** `push_data_to_buf`; a full buffer is left as it is. */
  function PushSlot(slots: seq<Slot>, c: Client): seq<Slot> {
    var i := FreeFrom(slots, 0);
    if i < |slots| then slots[i := Slot(c.dest, c.port, true)] else slots
  }

  /** The client an answer from `src` is handed to, and the slots after that. */
  function ServeSlot(slots: seq<Slot>, src: Ip): (seq<Slot>, Option<Client>) {
    var i := AskerFrom(slots, src, 0);
    if i < |slots| then (slots[i := slots[i].(busy := false)], Some(Client(src, slots[i].port))) else (slots, None)
  }

  /** With room, a push adds exactly its client. */
  lemma PushAdds(slots: seq<Slot>, c: Client)
    requires |Pending(slots)| < |slots|
    ensures |PushSlot(slots, c)| == |slots|
    ensures Pending(PushSlot(slots, c)) == Pending(slots) + multiset{c}
  {
    PendingSize(slots);
    var i, x := FreeFrom(slots, 0), Slot(c.dest, c.port, true);
    PendingUpdate(slots, i, x);
    assert Holding(slots[i]) == multiset{} && Holding(x) == multiset{c};
    assert Pending(slots[i := x]) + multiset{} == Pending(slots[i := x]);
  }

  /** An answer takes out exactly its client, and finds one exactly when one waits. */
  lemma ServeRemoves(slots: seq<Slot>, src: Ip)
    ensures var (slots', c) := ServeSlot(slots, src);
            && |slots'| == |slots|
            && (c.Some? <==> exists d :: d in Pending(slots) && d.dest == src)
            && (c.Some? ==> c.value.dest == src && Pending(slots) == Pending(slots') + multiset{c.value})
            && (c.None? ==> slots' == slots)
  {
    var i := AskerFrom(slots, src, 0);
    if i < |slots| {
      var c := Client(src, slots[i].port);
      PendingMember(slots, c);
      assert slots[i] == Slot(c.dest, c.port, true);
      var x := slots[i].(busy := false);
      PendingUpdate(slots, i, x);
      assert Holding(x) == multiset{} && Holding(slots[i]) == multiset{c};
      assert Pending(slots) + multiset{} == Pending(slots);
    } else {
      NobodyAsks(slots, src);
    }
  }

  class ClientBuffer {
    const slots: array<Slot>

    ghost predicate Valid() {
      slots.Length == BUFFER_SIZE
    }

    /** `init_buffer` */
    constructor ()
      ensures Valid() && fresh(slots) && slots[..] == BlankBuffer()
    {
      slots := new Slot[BUFFER_SIZE](_ => Slot("", "", false));
    }

    /** `push_data_to_buf` */
    method PushData(c: Client)
      requires Valid() && |Pending(slots[..])| < BUFFER_SIZE
      modifies slots
      ensures slots[..] == PushSlot(old(slots[..]), c)
      ensures Pending(slots[..]) == old(Pending(slots[..])) + multiset{c}
    {
      ghost var was := slots[..];
      PendingSize(was);
      PushAdds(was, c);
      var i := 0;
      while i < BUFFER_SIZE && slots[i].busy
        invariant 0 <= i <= BUFFER_SIZE && FreeFrom(was, 0) == FreeFrom(was, i)
      {
        i := i + 1;
      }
      slots[i] := Slot(c.dest, c.port, true);
    }

    /** The answer branch of `process_frame`: the first client that asked for `src`
        is served and leaves, if there is one. */
    method HandOver(src: Ip) returns (client: Option<Client>)
      requires Valid()
      modifies slots
      ensures (slots[..], client) == ServeSlot(old(slots[..]), src)
      ensures client.Some? <==> exists d :: d in old(Pending(slots[..])) && d.dest == src
      ensures client.Some? ==> old(Pending(slots[..])) == Pending(slots[..]) + multiset{client.value}
    {
      client := None;
      ghost var was := slots[..];
      ServeRemoves(was, src);
      var i := 0;
      while i < BUFFER_SIZE && !Asks(slots[i], src)
        invariant 0 <= i <= BUFFER_SIZE && AskerFrom(was, src, 0) == AskerFrom(was, src, i)
      {
        i := i + 1;
      }
      if i < BUFFER_SIZE {
        client := Some(Client(src, slots[i].port));
        slots[i] := slots[i].(busy := false);
      }
    }
  }
}
