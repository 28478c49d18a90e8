/** What `ga_port` and `ga_serv` leave in the list (unpv13e/libgai), entry by entry:
where every original and every copy ends up, with which type and port, and which
entries are counted.
*/
module AddrInfoPorts {
  import opened Basics
  import opened AddrInfoList

  // ---- One call ----

  /** The addresses that have a port. */
  predicate Internet(e: Entry) {
    e.family == Inet || e.family == Inet6
  }

  /** Which of the first `n` entries must be copied: a copy gets the new type. */
  ghost function Copied(es: seq<Entry>, n: nat): set<int>
    requires n <= |es|
  {
    set j | 0 <= j < n && es[j].clone && es[j].socktype != 0
  }

  /** Where entry `i` is in the result. */
  ghost function Place(es: seq<Entry>, i: nat): nat
    requires i <= |es|
  {
    i + |Copied(es, i)|
  }

  /** Where the entry that stands for `i` under the new type is: its copy, or itself. */
  ghost function NewPlace(es: seq<Entry>, i: nat): nat
    requires i < |es|
  {
    if es[i].clone && es[i].socktype != 0 then Place(es, i) + 1 else Place(es, i)
  }

  /** The entries a call for this type sets a port for. */
  ghost function Meant(es: seq<Entry>, socktype: int): set<int> {
    set i | 0 <= i < |es| && (es[i].clone || es[i].socktype == socktype) && Internet(es[i])
  }

  lemma PlaceNext(es: seq<Entry>, i: nat)
    requires i < |es|
    ensures Place(es, i + 1) == NewPlace(es, i) + 1
  {
    if es[i].clone && es[i].socktype != 0 {
      assert Copied(es, i + 1) == Copied(es, i) + {i};
    } else {
      assert Copied(es, i + 1) == Copied(es, i);
    }
  }

  lemma {:induction false} PlacesGrow(es: seq<Entry>, i: nat, j: nat)
    requires i < j <= |es|
    ensures NewPlace(es, i) < Place(es, j)
    decreases j
  {
    PlaceNext(es, j - 1);
    if i < j - 1 { PlacesGrow(es, i, j - 1); }
  }

  lemma PlaceFirst(es: seq<Entry>)
    ensures Place(es, 0) == 0
  {
    assert Copied(es, 0) == {};
  }

  lemma PlacePrefix(es: seq<Entry>, n: nat, i: nat)
    requires i <= n <= |es|
    ensures Place(es[..n], i) == Place(es, i)
  {
    assert Copied(es[..n], i) == Copied(es, i);
  }

  lemma {:induction false} PortedSize(es: seq<Entry>, socktype: int, port: int)
    ensures |PortAll(es, socktype, port)| == Place(es, |es|)
  {
    if es == [] {
      PlaceFirst(es);
    } else {
      var n := |es| - 1;
      PortedSize(es[..n], socktype, port);
      PlacePrefix(es, n, n);
      PlaceNext(es, n);
    }
  }

  /** What becomes of the entry that stands for `e` under the new type. */
  ghost predicate Stamped(e: Entry, x: Entry, socktype: int, port: int) {
    if !e.clone && e.socktype != socktype then x == e
    else
      && x.socktype == socktype && x.family == e.family && x.addr == e.addr
      && x.port == (if e.family == Local then e.port else port)
      && (x.clone <==> e.clone && e.socktype == 0)
  }

  /** Every entry of any list: where it is afterwards, and as what. */
  lemma {:induction false} PortedAt(es: seq<Entry>, socktype: int, port: int, i: nat)
    requires i < |es|
    ensures var r := PortAll(es, socktype, port);
            && |r| == Place(es, |es|) && Place(es, i) <= NewPlace(es, i) < |r|
            && Stamped(es[i], r[NewPlace(es, i)], socktype, port)
            && (Place(es, i) < NewPlace(es, i) ==> r[Place(es, i)] == es[i])
    decreases |es|
  {
    var n := |es| - 1;
    PortedSize(es, socktype, port);
    PlacesGrow(es, i, |es|);
    PortedSize(es[..n], socktype, port);
    PlacePrefix(es, n, n);
    if i < n {
      PortedAt(es[..n], socktype, port, i);
      PlacePrefix(es, n, i);
    }
  }

  ghost function NewPlaces(es: seq<Entry>, these: set<int>): set<int>
    requires forall i :: i in these ==> 0 <= i < |es|
  {
    set i | i in these :: NewPlace(es, i)
  }

  /** Where the counted entries are. */
  ghost function Given(es: seq<Entry>, socktype: int): set<int> {
    NewPlaces(es, Meant(es, socktype))
  }

  lemma {:induction false} FoundIsMeant(es: seq<Entry>, socktype: int)
    ensures Found(es, socktype) == |Meant(es, socktype)|
  {
    if es == [] {
      assert Meant(es, socktype) == {};
    } else {
      var n := |es| - 1;
      FoundIsMeant(es[..n], socktype);
      var all, front := Meant(es, socktype), Meant(es[..n], socktype);
      if n in all {
        assert all == front + {n};
      } else {
        assert all == front;
      }
    }
  }

  lemma AnyOf<T>(these: set<T>) returns (x: T)
    requires these != {}
    ensures x in these
  {
    x :| x in these;
  }

  lemma {:induction false} SameSize(es: seq<Entry>, these: set<int>)
    requires forall i :: i in these ==> 0 <= i < |es|
    ensures |NewPlaces(es, these)| == |these|
  {
    if these != {} {
      var x := AnyOf(these);
      var rest := these - {x};
      SameSize(es, rest);
      forall i | i in rest ensures NewPlace(es, i) != NewPlace(es, x) {
        if i < x { PlacesGrow(es, i, x); } else { PlacesGrow(es, x, i); }
      }
      assert NewPlaces(es, these) == NewPlaces(es, rest) + {NewPlace(es, x)};
    }
  }

  /** Every place of the result belongs to one entry. */
  lemma {:induction false} PlaceOf(es: seq<Entry>, n: nat, q: nat) returns (i: nat)
    requires n <= |es| && q < Place(es, n)
    ensures i < n && (q == Place(es, i) || q == NewPlace(es, i))
    decreases n
  {
    if n == 0 {
      PlaceFirst(es);
      assert false;
    }
    PlaceNext(es, n - 1);
    if q < Place(es, n - 1) { i := PlaceOf(es, n - 1, q); } else { i := n - 1; }
  }

  /** The call counts exactly the entries of the result it gave its type and port. Any
      other entry without a local address is one of the originals, unchanged. */
  lemma FoundCountsGiven(es: seq<Entry>, socktype: int, port: int)
    ensures var r := PortAll(es, socktype, port); var given := Given(es, socktype);
            && Found(es, socktype) == |given|
            && (forall q :: q in given ==> 0 <= q < |r| && r[q].socktype == socktype && r[q].port == port)
            && (forall q :: 0 <= q < |r| && q !in given ==>
                  r[q].family == Local || exists i :: 0 <= i < |es| && Place(es, i) == q && r[q] == es[i])
  {
    var r, given := PortAll(es, socktype, port), Given(es, socktype);
    FoundIsMeant(es, socktype);
    SameSize(es, Meant(es, socktype));
    PortedSize(es, socktype, port);
    forall q | q in given ensures 0 <= q < |r| && r[q].socktype == socktype && r[q].port == port {
      var i :| i in Meant(es, socktype) && q == NewPlace(es, i);
      PortedAt(es, socktype, port, i);
    }
    forall q | 0 <= q < |r| && q !in given
      ensures r[q].family == Local || exists i :: 0 <= i < |es| && Place(es, i) == q && r[q] == es[i]
    {
      NotGiven(es, socktype, port, q);
    }
  }

  lemma NotGiven(es: seq<Entry>, socktype: int, port: int, q: nat)
    requires q < |PortAll(es, socktype, port)| && q !in Given(es, socktype)
    ensures var r := PortAll(es, socktype, port);
            r[q].family == Local || exists i :: 0 <= i < |es| && Place(es, i) == q && r[q] == es[i]
  {
    PortedSize(es, socktype, port);
    var i := PlaceOf(es, |es|, q);
    PortedAt(es, socktype, port, i);
    assert q == NewPlace(es, i) ==> i !in Meant(es, socktype);
  }

  /** Without clone flags nothing moves: an entry gets the port exactly when it has the
      type and an internet address, and the count is the number of those. */
  lemma PlainPorts(es: seq<Entry>, socktype: int, port: int)
    requires forall i :: 0 <= i < |es| ==> !es[i].clone
    ensures var r := PortAll(es, socktype, port);
            && |r| == |es|
            && (forall i :: 0 <= i < |es| ==>
                  r[i] == if es[i].socktype == socktype && Internet(es[i])
                          then es[i].(port := port) else es[i])
            && Found(es, socktype)
               == |set i | 0 <= i < |es| && es[i].socktype == socktype && Internet(es[i])|
  {
    var r := PortAll(es, socktype, port);
    assert forall i :: 0 <= i <= |es| ==> Copied(es, i) == {};
    PortedSize(es, socktype, port);
    forall i | 0 <= i < |es|
      ensures r[i] == if es[i].socktype == socktype && Internet(es[i])
                      then es[i].(port := port) else es[i]
    {
      PortedAt(es, socktype, port, i);
    }
    FoundIsMeant(es, socktype);
    assert Meant(es, socktype)
        == set i | 0 <= i < |es| && es[i].socktype == socktype && Internet(es[i]);
  }

  // ---- When memory runs out ----

  /** The walk is broken off at the first entry that must be copied and cannot be. */
  lemma {:induction false} FailsFirst(es: seq<Entry>, allocs: nat -> Alloc, used: nat, i: nat)
    requires i <= |es|
    ensures var k := FailFrom(es, allocs, used, i);
            && (forall j :: i <= j < k && es[j].clone && es[j].socktype != 0 ==>
                  allocs(used + |Copied(es, j)|) == Whole)
            && (k < |es| ==> es[k].clone && es[k].socktype != 0 && allocs(used + |Copied(es, k)|) != Whole)
    decreases |es| - i
  {
    CopiesCounted(es, i);
    if FailFrom(es, allocs, used, i) != i { FailsFirst(es, allocs, used, i + 1); }
  }

  lemma {:induction false} CopiesCounted(es: seq<Entry>, n: nat)
    requires n <= |es|
    ensures CopyCount(es[..n]) == |Copied(es, n)|
  {
    if n == 0 {
      assert Copied(es, 0) == {};
    } else {
      CopiesCounted(es, n - 1);
      assert es[..n][..n - 1] == es[..n - 1];
      PlaceNext(es, n - 1);
    }
  }

  /** The list then: what the walk made of the entries before `k`, and the others as they
      were, with an empty copy behind entry `k` when only its address found no memory. */
  lemma BrokenOffAt(es: seq<Entry>, k: nat, socktype: int, port: int, alloc: Alloc)
    requires k < |es| && alloc != Whole
    ensures var r := BrokenOff(es, k, socktype, port, alloc); var at := Place(es, k);
            && |r| == at + |es| - k + (if alloc == NoAddress then 1 else 0)
            && r[..at] == PortAll(es[..k], socktype, port) && r[at] == es[k]
            && (alloc == NoEntry ==> r[at + 1..] == es[k + 1..])
            && (alloc == NoAddress ==>
                  && r[at + 1] == Entry(false, es[k].family, es[k].socktype, 0, "") && r[at + 2..] == es[k + 1..])
  {
    PortedSize(es[..k], socktype, port);
    PlacePrefix(es, k, k);
  }

  // ---- The calls of ga_serv ----

  /** Exactly which calls: a number for the hinted type or for both; a name for every type
      that the hint allows and the name has a port for. */
  lemma ServCallsExact(hint: int, serv: Service, c: Call)
    ensures c in ServCalls(hint, serv) <==>
            match serv
            case Port(p) =>
              c.port == p && if hint == 0 then c.socktype == 1 || c.socktype == 2 else c.socktype == hint
            case Name(tcp, udp) =>
              || (c.socktype == 1 && (hint == 0 || hint == 1) && tcp == Some(c.port))
              || (c.socktype == 2 && (hint == 0 || hint == 2) && udp == Some(c.port))
    ensures |ServCalls(hint, serv)| <= 2
    ensures |ServCalls(hint, serv)| == 2 ==>
              ServCalls(hint, serv)[0].socktype == 1 && ServCalls(hint, serv)[1].socktype == 2
  {
    var cs := ServCalls(hint, serv);
    assert |cs| <= 2;
    assert c in cs <==> (|cs| > 0 && cs[0] == c) || (|cs| > 1 && cs[1] == c);
  }

  lemma OneCall(es: seq<Entry>, c: Call)
    ensures PortMany(es, [c]) == PortAll(es, c.socktype, c.port) && FoundMany(es, [c]) == Found(es, c.socktype)
  {
    OneMoreCall(es, [], c, _ => Whole);
    assert [] + [c] == [c];
  }

  ghost predicate AllUnset(es: seq<Entry>) {
    forall i :: 0 <= i < |es| ==> Unset(es[i])
  }

  lemma {:induction false} AllCopied(es: seq<Entry>, i: nat)
    requires i <= |es| && forall j :: 0 <= j < |es| ==> es[j].clone && es[j].socktype != 0
    ensures Place(es, i) == 2 * i
  {
    if i == 0 {
      PlaceFirst(es);
    } else {
      PlaceNext(es, i - 1);
      AllCopied(es, i - 1);
    }
  }

  lemma {:induction false} AllFound(es: seq<Entry>, socktype: int)
    requires forall i :: 0 <= i < |es| ==> es[i].clone && es[i].family != Local
    ensures Found(es, socktype) == |es|
  {
    if es != [] { AllFound(es[..|es| - 1], socktype); }
  }

  /** One call on entries of no type: each gets the type and the port, in place. */
  lemma FirstPorted(es: seq<Entry>, c: Call)
    requires AllUnset(es)
    ensures var r := PortAll(es, c.socktype, c.port);
            && |r| == |es| && Found(es, c.socktype) == |es|
            && forall i :: 0 <= i < |es| ==> r[i] == es[i].(socktype := c.socktype, port := c.port)
  {
    var r := PortAll(es, c.socktype, c.port);
    assert forall i :: 0 <= i <= |es| ==> Copied(es, i) == {};
    PortedSize(es, c.socktype, c.port);
    AllFound(es, c.socktype);
    forall i | 0 <= i < |es| ensures r[i] == es[i].(socktype := c.socktype, port := c.port) {
      PortedAt(es, c.socktype, c.port, i);
    }
  }

  /** A second call puts a copy with its own type and port behind each. */
  lemma SecondPorted(es: seq<Entry>, c: Call)
    requires forall i :: 0 <= i < |es| ==> es[i].clone && es[i].socktype != 0 && es[i].family != Local
    ensures var r := PortAll(es, c.socktype, c.port);
            && |r| == 2 * |es| && Found(es, c.socktype) == |es|
            && forall i :: 0 <= i < |es| ==>
                 && r[2 * i] == es[i]
                 && r[2 * i + 1] == es[i].(clone := false, socktype := c.socktype, port := c.port)
  {
    var r := PortAll(es, c.socktype, c.port);
    AllCopied(es, |es|);
    PortedSize(es, c.socktype, c.port);
    AllFound(es, c.socktype);
    forall i | 0 <= i < |es|
      ensures r[2 * i] == es[i] && r[2 * i + 1] == es[i].(clone := false, socktype := c.socktype, port := c.port)
    {
      AllCopied(es, i);
      PortedAt(es, c.socktype, c.port, i);
    }
  }

  lemma BothPorted(es: seq<Entry>, tcp: int, udp: int)
    requires AllUnset(es)
    ensures var cs := [Call(1, tcp), Call(2, udp)]; var r := PortMany(es, cs);
            && |r| == 2 * |es| && FoundMany(es, cs) == 2 * |es|
            && forall i :: 0 <= i < |es| ==>
                 && r[2 * i] == es[i].(socktype := 1, port := tcp)
                 && r[2 * i + 1] == es[i].(clone := false, socktype := 2, port := udp)
  {
    var c, d := Call(1, tcp), Call(2, udp);
    FirstPorted(es, c);
    OneCall(es, c);
    SecondPorted(PortAll(es, 1, tcp), d);
    OneMoreCall(es, [c], d, _ => Whole);
    assert [c] + [d] == [c, d];
  }

  /** `ga_serv` for a caller that named no socket type: two entries for every address, the
      stream one with the TCP port and right behind it the datagram one with the UDP port;
      for a name with only one of the two, one entry; for an unknown name, no change. */
  lemma ServesAnyType(es: seq<Entry>, serv: Service)
    requires AllUnset(es)
    ensures var r := PortMany(es, ServCalls(0, serv)); var found := FoundMany(es, ServCalls(0, serv));
            var tcp := if serv.Port? then Some(serv.port) else serv.tcp;
            var udp := if serv.Port? then Some(serv.port) else serv.udp;
            if tcp.Some? && udp.Some? then
              && |r| == 2 * |es| && found == 2 * |es|
              && forall i :: 0 <= i < |es| ==>
                   && r[2 * i] == es[i].(socktype := 1, port := tcp.value)
                   && r[2 * i + 1] == es[i].(clone := false, socktype := 2, port := udp.value)
            else if tcp.Some? then
              && |r| == |es| && found == |es|
              && forall i :: 0 <= i < |es| ==> r[i] == es[i].(socktype := 1, port := tcp.value)
            else if udp.Some? then
              && |r| == |es| && found == |es|
              && forall i :: 0 <= i < |es| ==> r[i] == es[i].(socktype := 2, port := udp.value)
            else r == es && found == 0
  {
    var tcp := if serv.Port? then Some(serv.port) else serv.tcp;
    var udp := if serv.Port? then Some(serv.port) else serv.udp;
    if tcp.Some? && udp.Some? {
      BothPorted(es, tcp.value, udp.value);
      assert ServCalls(0, serv) == [Call(1, tcp.value), Call(2, udp.value)];
    } else if tcp.Some? {
      FirstPorted(es, Call(1, tcp.value));
      OneCall(es, Call(1, tcp.value));
      assert ServCalls(0, serv) == [Call(1, tcp.value)];
    } else if udp.Some? {
      FirstPorted(es, Call(2, udp.value));
      OneCall(es, Call(2, udp.value));
      assert ServCalls(0, serv) == [Call(2, udp.value)];
    } else {
      assert ServCalls(0, serv) == [];
    }
  }

  /** The port `ga_serv` knows the service by under the hinted type. */
  function HintedPort(serv: Service, hint: int): Option<int> {
    match serv
    case Port(p) => Some(p)
    case Name(tcp, udp) => if hint == 1 then tcp else if hint == 2 then udp else None
  }

  /** For a caller that named a type, whose entries all have it: every internet address
      gets the service's port under that type, or nothing is found without one. */
  lemma ServesHintedType(es: seq<Entry>, serv: Service, hint: int)
    requires hint != 0 && forall i :: 0 <= i < |es| ==> !es[i].clone && es[i].socktype == hint
    ensures var r := PortMany(es, ServCalls(hint, serv)); var found := FoundMany(es, ServCalls(hint, serv));
            var port := HintedPort(serv, hint);
            if port.None? then r == es && found == 0
            else
              && |r| == |es| && found == |set i | 0 <= i < |es| && Internet(es[i])|
              && forall i :: 0 <= i < |es| ==>
                   r[i] == if Internet(es[i]) then es[i].(port := port.value) else es[i]
  {
    var port := HintedPort(serv, hint);
    if port.None? {
      assert ServCalls(hint, serv) == [];
    } else {
      assert ServCalls(hint, serv) == [Call(hint, port.value)];
      OneCall(es, Call(hint, port.value));
      PlainPorts(es, hint, port.value);
      assert (set i | 0 <= i < |es| && es[i].socktype == hint && Internet(es[i]))
          == (set i | 0 <= i < |es| && Internet(es[i]));
    }
  }
}
