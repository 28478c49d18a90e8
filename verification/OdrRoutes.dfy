/** What the ODR invariant buys: in every state of every run, next hops form no
loop, lead to the address, and carry payloads and RREPs without getting stuck. */
module OdrRoutes {
  import opened RoutingTable
  import opened OdrNode
  import opened OdrNetwork
  import opened OdrOutcome

  ghost predicate Distinct(path: seq<NodeId>) {
    forall i, j :: 0 <= i < j < |path| ==> path[i] != path[j]
  }

  lemma {:induction false} DistinctFits(path: seq<NodeId>, nodes: set<NodeId>)
    requires Distinct(path)
    requires forall i :: 0 <= i < |path| ==> path[i] in nodes
    ensures |path| <= |nodes|
  {
    if path != [] {
      DistinctFits(path[1..], nodes - {path[0]});
    }
  }

  // ---- No loops ----

  /** Along next hops, every node that still has a hop to make learned the address
      earlier than all nodes before it. */
  lemma {:induction false} EarlierAlong(t: Topology, s: State, a: Ip, path: seq<NodeId>, i: nat, j: nat)
    requires Inv(t, s) && HopsAlong(t, s, a, path)
    requires i < j < |path|
    ensures path[i] in s.nodes && a in s.nodes[path[i]].table
    ensures Knew(t, s, path[j], a, s.nodes[path[i]].table[a].ts)
    decreases j - i
  {
    assert HopsTo(t, s, a, path[i], path[i + 1]);
    assert RowOk(t, s, path[i], a);
    if i + 1 < j {
      EarlierAlong(t, s, a, path, i + 1, j);
      assert RowOk(t, s, path[i + 1], a);
    }
  }

  lemma HopsNeverRepeat(t: Topology, s: State, a: Ip, path: seq<NodeId>)
    requires Inv(t, s) && HopsAlong(t, s, a, path)
    ensures Distinct(path)
  {
    forall i, j | 0 <= i < j < |path| ensures path[i] != path[j] {
      EarlierAlong(t, s, a, path, i, j);
      assert RowOk(t, s, path[i], a);
    }
  }

  /** Where next hops for `a` lead from `n`. */
  ghost function Route(t: Topology, s: State, a: Ip, n: NodeId): (path: seq<NodeId>)
    requires Inv(t, s) && Knew(t, s, n, a, s.clock)
    ensures path != [] && path[0] == n
    ensures HopsAlong(t, s, a, path)
    ensures OwnsAt(t, path[|path| - 1], a)
    decreases if OwnsAt(t, n, a) then 0 else s.nodes[n].table[a].ts + 1
  {
    if OwnsAt(t, n, a) then [n]
    else
      assert RowOk(t, s, n, a);
      var m := t.owner[s.nodes[n].table[a].nextHop];
      var rest := Route(t, s, a, m);
      assert HopsTo(t, s, a, n, m);
      [n] + rest
  }

  /** Loop freedom. In any state of any run, from any node with a row for `a`,
      following next hops reaches an owner of `a`, over pairwise different nodes
      and so within the number of nodes. */
  lemma NextHopsReachOwner(t: Topology, run: seq<State>, events: seq<Event>, k: nat, n: NodeId, a: Ip)
    returns (path: seq<NodeId>)
    requires Configured(t) && IsRun(t, run, events) && k < |run|
    requires n in run[k].nodes && a in run[k].nodes[n].table
    ensures path != [] && path[0] == n && HopsAlong(t, run[k], a, path)
    ensures OwnsAt(t, path[|path| - 1], a)
    ensures Distinct(path) && |path| <= |t.ifs|
  {
    var s := run[k];
    RunInv(t, run, events, k);
    assert RowOk(t, s, n, a);
    path := Route(t, s, a, n);
    HopsNeverRepeat(t, s, a, path);
    PathInside(t, s, a, path);
    DistinctFits(path, t.ifs.Keys);
  }

  /** No next-hop path, from anywhere to anywhere, visits a node twice. */
  lemma NoRoutingLoop(t: Topology, run: seq<State>, events: seq<Event>, k: nat, a: Ip, path: seq<NodeId>)
    requires Configured(t) && IsRun(t, run, events) && k < |run|
    requires HopsAlong(t, run[k], a, path)
    ensures Distinct(path)
  {
    RunInv(t, run, events, k);
    HopsNeverRepeat(t, run[k], a, path);
  }

  lemma PathInside(t: Topology, s: State, a: Ip, path: seq<NodeId>)
    requires Configured(t) && Inv(t, s) && |path| > 0 && HopsAlong(t, s, a, path)
    requires path[|path| - 1] in t.ifs
    ensures forall i :: 0 <= i < |path| ==> path[i] in t.ifs.Keys
  {
    forall i | 0 <= i < |path| ensures path[i] in t.ifs.Keys {
      if i < |path| - 1 { assert HopsTo(t, s, a, path[i], path[i + 1]); }
    }
  }

  // ---- Rows along a run ----

  lemma {:induction false} RunExtends(t: Topology, run: seq<State>, events: seq<Event>, i: nat, j: nat)
    requires IsRun(t, run, events) && i <= j < |run|
    ensures Extends(run[i], run[j])
    decreases j - i
  {
    if i < j {
      NextExtends(t, run[i], events[i], run[i + 1]);
      RunExtends(t, run, events, i + 1, j);
      ExtendsTransitive(run[i], run[i + 1], run[j]);
    }
  }

  lemma ExtendsTransitive(s: State, s': State, s'': State)
    requires Extends(s, s') && Extends(s', s'')
    ensures Extends(s, s'')
  {
    forall n | n in s.nodes ensures Improves(s.nodes[n].table, s''.nodes[n].table) {
      assert Improves(s.nodes[n].table, s'.nodes[n].table) && Improves(s'.nodes[n].table, s''.nodes[n].table);
    }
  }

  /** Every address in use belongs to some interface. */
  ghost function Addresses(t: Topology): set<Ip> {
    set n, i | n in t.ifs && 0 <= i < |t.ifs[n]| :: t.ifs[n][i].ip
  }

  /** With at most 100 addresses in the network the row array never overflows: a
      control frame about to be learned always finds its row or a blank slot. */
  lemma TableNeverFull(t: Topology, run: seq<State>, events: seq<Event>, k: nat, p: Packet)
    requires Configured(t) && IsRun(t, run, events) && k < |run|
    requires |Addresses(t)| <= ROUTING_TABLE_SIZE
    requires p in run[k].net && IsControl(p.frame.hdr)
    ensures p.to in run[k].nodes
    ensures var table := run[k].nodes[p.to].table;
            Addressed(p.frame.hdr) && (p.frame.hdr.src in table || |table| < ROUTING_TABLE_SIZE)
  {
    var s := run[k];
    RunInv(t, run, events, k);
    assert PacketOk(t, s, p);
    var table, src := s.nodes[p.to].table, p.frame.hdr.src;
    forall a | a in table ensures a in Addresses(t) {
      assert RowOk(t, s, p.to, a);
      var o :| OwnsAt(t, o, a);
    }
    var o :| OwnsAt(t, o, src);
    assert src in Addresses(t);
    if src !in table {
      SubsetSmaller(table.Keys, Addresses(t), src);
    }
  }

  lemma SubsetSmaller<T>(a: set<T>, b: set<T>, x: T)
    requires a <= b && x in b && x !in a
    ensures |a| < |b|
  {
    SubsetNoLarger(a, b - {x});
  }

  lemma {:induction false} SubsetNoLarger<T>(a: set<T>, b: set<T>)
    requires a <= b
    ensures |a| <= |b|
  {
    if a != {} {
      var x :| x in a;
      SubsetNoLarger(a - {x}, b - {x});
    }
  }

  // ---- No stuck forwarding ----

  /** A payload or RREP that some node sent along a row is always at a node that
      owns the target or has a row for it, has visited each node at most once, and
      so has been passed on fewer times than there are nodes. */
  lemma RoutedPacketHasRoute(t: Topology, run: seq<State>, events: seq<Event>, k: nat, p: Packet)
    requires Configured(t) && IsRun(t, run, events) && k < |run|
    requires p in run[k].net && p.trail != []
    ensures p.to in t.ifs && p.to in run[k].nodes
    ensures OwnsAt(t, p.to, p.frame.hdr.dest) || p.frame.hdr.dest in run[k].nodes[p.to].table
    ensures Distinct(p.trail + [p.to]) && |p.trail| < |t.ifs|
  {
    var s, a, path := run[k], p.frame.hdr.dest, p.trail + [p.to];
    RunInv(t, run, events, k);
    assert PacketOk(t, s, p);
    HopsNeverRepeat(t, s, a, path);
    PathInside(t, s, a, path);
    DistinctFits(path, t.ifs.Keys);
    EarlierAlong(t, s, a, path, |path| - 2, |path| - 1);
  }

  /** Delivering such a packet away from its target forwards it, unchanged but for
      the hop count, to the next hop out of every interface: neither the ignore
      branch nor the missing-row read is reached. */
  lemma RoutedPacketMovesOn(t: Topology, run: seq<State>, events: seq<Event>, k: nat)
    requires Configured(t) && IsRun(t, run, events) && k < |events|
    requires events[k].Deliver? && events[k].p.trail != []
    requires events[k].p.frame.hdr.kind != Rreq
    requires !OwnsAt(t, events[k].p.to, events[k].p.frame.hdr.dest)
    ensures var e := events[k]; var h := e.p.frame.hdr; var n := e.p.to;
            && n in t.ifs && n in run[k].nodes && n in run[k + 1].nodes && h.dest in run[k + 1].nodes[n].table
            && var out := Process(t.ifs[n], run[k].nodes[n], e.p.frame, run[k].clock, e.stray, e.reply).1;
               exists h': Header ::
                 && h'.src == h.src && h'.dest == h.dest && h'.kind == h.kind
                 && (h.kind != Rrep ==> h'.msg == h.msg)
                 && OutOfEach(t.ifs[n], out, run[k + 1].nodes[n].table[h.dest].nextHop, h')
  {
    var e := events[k];
    var n, h := e.p.to, e.p.frame.hdr;
    assert Next(t, run[k], e, run[k + 1]);
    RoutedPacketHasRoute(t, run, events, k, e.p);
    NextExtends(t, run[k], e, run[k + 1]);
    assert Improves(run[k].nodes[n].table, run[k + 1].nodes[n].table);
    var node := run[k + 1].nodes[n];
    var h' := if h.kind == Rrep then Header(h.src, h.dest, h.hop + 1, h.bcid, Rrep, 0, "")
              else Header(h.src, h.dest, node.table[h.dest].hop, node.bid, h.kind, 0, h.msg);
    if h.kind == Rrep {
      RrepOutcome(t.ifs[n], run[k].nodes[n], e.p.frame, run[k].clock, e.stray, e.reply);
    } else {
      PayloadOutcome(t.ifs[n], run[k].nodes[n], e.p.frame, run[k].clock, e.stray, e.reply);
    }
    assert OutOfEach(t.ifs[n], Process(t.ifs[n], run[k].nodes[n], e.p.frame, run[k].clock, e.stray, e.reply).1,
                     node.table[h.dest].nextHop, h');
  }
}
