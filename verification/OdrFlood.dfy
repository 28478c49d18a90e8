/** Termination of ODR traffic (hw3/odr.c).

Over an infinite run without client requests the routing tables settle, however
often frames are repeated and floods restarted. Where those end too, the flooding
stops, and then every RREP and payload runs out.
*/
module OdrFlood {
  import opened RoutingTable
  import opened OdrNode
  import opened OdrNetwork
  import opened OdrRoutes
  import opened OdrDiscovery
  import opened OdrStray

  ghost predicate InfiniteRun(t: Topology, run: nat -> State, ev: nat -> Event) {
    && Initial(t, run(0))
    && forall i: nat :: Next(t, run(i), ev(i), run(i + 1))
  }

  /** Only deliveries and losses, and no flood originated: a delivery other than an
      RREQ's puts no RREQ on the air. */
  ghost predicate Calm(e: Event) {
    || e.Lose?
    || (e.Deliver? && (e.p.frame.hdr.kind == Rreq || forall q :: q in e.air ==> q.frame.hdr.kind != Rreq))
  }

  /** Calm, and no RREP sent without a row for its target. */
  ghost predicate Quiet(e: Event) {
    Calm(e) && (e.Deliver? ==> forall q :: q in e.air ==> q.frame.hdr.kind == Rreq || q.trail != [])
  }

  // ---- Facts along an infinite run ----

  lemma {:induction false} InvAt(t: Topology, run: nat -> State, ev: nat -> Event, i: nat)
    requires Configured(t) && InfiniteRun(t, run, ev)
    ensures Inv(t, run(i))
  {
    if i > 0 {
      InvAt(t, run, ev, i - 1);
      assert Next(t, run(i - 1), ev(i - 1), run(i));
      NextKeepsInv(t, run(i - 1), ev(i - 1), run(i));
    }
  }

  lemma {:induction false} ExtendsAt(t: Topology, run: nat -> State, ev: nat -> Event, i: nat, j: nat)
    requires InfiniteRun(t, run, ev) && i <= j
    ensures Extends(run(i), run(j))
    decreases j
  {
    if i < j {
      ExtendsAt(t, run, ev, i, j - 1);
      assert Next(t, run(j - 1), ev(j - 1), run(j));
      NextExtends(t, run(j - 1), ev(j - 1), run(j));
      ExtendsTransitive(run(i), run(j - 1), run(j));
    }
  }

  // ---- Broadcast ids stay bounded without client requests ----

  /** No broadcast id of a daemon, a row or a control frame is above `top`. */
  ghost predicate Bounded(s: State, top: int) {
    && (forall n :: n in s.nodes ==> s.nodes[n].bid <= top)
    && (forall n, a :: n in s.nodes && a in s.nodes[n].table ==> s.nodes[n].table[a].bid <= top)
    && (forall p :: p in s.net && IsControl(p.frame.hdr) ==> p.frame.hdr.bcid <= top)
  }

  lemma {:induction false} SetHasTop(xs: set<int>) returns (top: int)
    ensures forall x :: x in xs ==> x <= top
  {
    if x :| x in xs {
      var rest := SetHasTop(xs - {x});
      top := if x < rest then rest else x;
      assert forall y :: y in xs ==> y == x || y in xs - {x};
    } else {
      top := 0;
    }
  }

  lemma HasBound(s: State) returns (top: int)
    ensures Bounded(s, top)
  {
    var rows := set n, a | n in s.nodes && a in s.nodes[n].table :: s.nodes[n].table[a].bid;
    var ids := set p | p in s.net :: p.frame.hdr.bcid;
    var own := set n | n in s.nodes :: s.nodes[n].bid;
    top := SetHasTop(rows + ids + own);
    forall n | n in s.nodes ensures s.nodes[n].bid <= top { assert s.nodes[n].bid in own; }
    forall n, a | n in s.nodes && a in s.nodes[n].table ensures s.nodes[n].table[a].bid <= top {
      assert s.nodes[n].table[a].bid in rows;
    }
    forall p | p in s.net ensures p.frame.hdr.bcid <= top {
      assert p.frame.hdr.bcid in ids;
    }
  }

  lemma {:induction false} FloodIds(ifs: seq<Iface>, k: nat, bcid: int, dest: Ip, force: int)
    requires k <= |ifs|
    ensures forall f :: f in FloodFrames(ifs, k, bcid, dest, force) ==> f.hdr.bcid == bcid
  {
    if k > 0 { FloodIds(ifs, k - 1, bcid, dest, force); }
  }

  lemma PayloadIds(ifs: seq<Iface>, node: Node, src: Ip, dest: Ip, kind: Kind, msg: string)
    ensures forall f :: f in PayloadFrames(ifs, node, src, dest, kind, msg, 0) ==> f.hdr.bcid == node.bid
  {
    FloodIds(ifs, |ifs|, node.bid, dest, 0);
  }

  /** A frame sent in answer carries the daemon's own broadcast id or, to a control
      frame, that frame's. */
  lemma AnswerKeepsId(ifs: seq<Iface>, node: Node, changed: bool, h: Header, stray: Mac, reply: string, f: Frame)
    requires f in Answer(ifs, node, changed, h, stray, reply)
    ensures f.hdr.bcid == node.bid || (IsControl(h) && f.hdr.bcid == h.bcid)
  {
    PayloadIds(ifs, node, h.dest, h.src, PayloadReq, " ");
    PayloadIds(ifs, node, h.dest, h.src, PayloadResp, reply);
    PayloadIds(ifs, node, h.src, h.dest, h.kind, h.msg);
  }

  /** Only a client request raises a broadcast id. */
  lemma UnaskedKeepsBound(t: Topology, s: State, e: Event, s': State, top: int)
    requires Next(t, s, e, s') && !e.Ask? && Bounded(s, top)
    ensures Bounded(s', top)
  {
    if e.Deliver? {
      var n, f := e.p.to, e.p.frame;
      var (node, out) := Process(t.ifs[n], s.nodes[n], f, s.clock, e.stray, e.reply);
      forall p | p in s'.net && IsControl(p.frame.hdr) ensures p.frame.hdr.bcid <= top {
        if p !in s.net {
          AnswerKeepsId(t.ifs[n], node, node.table != s.nodes[n].table, f.hdr, e.stray, e.reply, p.frame);
        }
      }
    }
  }

  lemma {:induction false} BoundedAt(t: Topology, run: nat -> State, ev: nat -> Event, i: nat, j: nat, top: int)
    requires InfiniteRun(t, run, ev) && i <= j && Bounded(run(i), top)
    requires forall k :: i <= k ==> !ev(k).Ask?
    ensures Bounded(run(j), top)
    decreases j
  {
    if i < j {
      BoundedAt(t, run, ev, i, j - 1, top);
      assert Next(t, run(j - 1), ev(j - 1), run(j));
      UnaskedKeepsBound(t, run(j - 1), ev(j - 1), run(j), top);
    }
  }

  // ---- Tables settle ----

  ghost predicate SameRow(s: State, s': State, n: NodeId, a: Ip) {
    && n in s.nodes && n in s'.nodes
    && (a in s.nodes[n].table <==> a in s'.nodes[n].table)
    && (a in s.nodes[n].table ==> s'.nodes[n].table[a] == s.nodes[n].table[a])
  }

  /** How far a row can still improve: its broadcast id up to `top`, its hop count down to 0. */
  ghost function Headroom(s: State, n: NodeId, a: Ip, top: int): int {
    if n in s.nodes && a in s.nodes[n].table then top - s.nodes[n].table[a].bid + s.nodes[n].table[a].hop else 0
  }

  /** A changed row has appeared, or has less headroom left. */
  lemma ChangeUsesHeadroom(t: Topology, s: State, s': State, n: NodeId, a: Ip, top: int)
    requires Inv(t, s') && Bounded(s', top) && Extends(s, s') && n in s.nodes && !SameRow(s, s', n, a)
    ensures n in s'.nodes && a in s'.nodes[n].table && 0 <= Headroom(s', n, a, top)
    ensures a in s.nodes[n].table ==> Headroom(s', n, a, top) < Headroom(s, n, a, top)
  {
    assert Improves(s.nodes[n].table, s'.nodes[n].table);
    if a in s'.nodes[n].table { assert RowOk(t, s', n, a); }
  }

  lemma {:induction false} RowSettles(t: Topology, run: nat -> State, ev: nat -> Event, i: nat, n: NodeId, a: Ip,
                                      top: int)
    returns (k: nat)
    requires Configured(t) && InfiniteRun(t, run, ev) && n in run(i).nodes && Bounded(run(i), top)
    requires forall j :: i <= j ==> !ev(j).Ask?
    ensures i <= k
    ensures forall j :: k <= j ==> SameRow(run(k), run(j), n, a)
    decreases if a in run(i).nodes[n].table then 0 else 1, Headroom(run(i), n, a, top)
  {
    InvAt(t, run, ev, i);
    if forall j :: i <= j ==> SameRow(run(i), run(j), n, a) {
      k := i;
    } else {
      var j :| i <= j && !SameRow(run(i), run(j), n, a);
      ExtendsAt(t, run, ev, i, j);
      InvAt(t, run, ev, j);
      BoundedAt(t, run, ev, i, j, top);
      ChangeUsesHeadroom(t, run(i), run(j), n, a, top);
      k := RowSettles(t, run, ev, j, n, a, top);
    }
  }

  lemma {:induction false} RowsSettle(t: Topology, run: nat -> State, ev: nat -> Event, i: nat,
                                      cells: set<(NodeId, Ip)>, top: int)
    returns (k: nat)
    requires Configured(t) && InfiniteRun(t, run, ev) && Bounded(run(i), top)
    requires forall j :: i <= j ==> !ev(j).Ask?
    requires forall c :: c in cells ==> c.0 in t.ifs
    ensures i <= k
    ensures forall c, j :: c in cells && k <= j ==> SameRow(run(k), run(j), c.0, c.1)
  {
    if cells == {} {
      k := i;
    } else {
      var c :| c in cells;
      var k0 := RowsSettle(t, run, ev, i, cells - {c}, top);
      BoundedAt(t, run, ev, i, k0, top);
      InvAt(t, run, ev, k0);
      k := RowSettles(t, run, ev, k0, c.0, c.1, top);
      forall c', j | c' in cells && k <= j ensures SameRow(run(k), run(j), c'.0, c'.1) {
        if c' != c {
          assert c' in cells - {c};
          assert SameRow(run(k0), run(j), c'.0, c'.1) && SameRow(run(k0), run(k), c'.0, c'.1);
        }
      }
    }
  }

  /** Once clients stop asking, every routing table eventually stops changing, however
      often frames are lost, repeated and reordered and whatever floods restart. */
  lemma TablesSettle(t: Topology, run: nat -> State, ev: nat -> Event, i: nat) returns (k: nat)
    requires Configured(t) && InfiniteRun(t, run, ev)
    requires forall j :: i <= j ==> !ev(j).Ask?
    ensures i <= k
    ensures forall n, j :: n in t.ifs && k <= j ==>
              n in run(j).nodes && n in run(k).nodes && run(j).nodes[n].table == run(k).nodes[n].table
  {
    var top := HasBound(run(i));
    var cells := set n, a | n in t.ifs && a in Addresses(t) :: (n, a);
    k := RowsSettle(t, run, ev, i, cells, top);
    forall n, j | n in t.ifs && k <= j
      ensures n in run(j).nodes && n in run(k).nodes && run(j).nodes[n].table == run(k).nodes[n].table
    {
      InvAt(t, run, ev, j);
      InvAt(t, run, ev, k);
      forall a ensures SameRow(run(k), run(j), n, a) {
        if a in Addresses(t) { assert (n, a) in cells; }
        if a in run(j).nodes[n].table { RowIsKnown(t, run(j), n, a); }
        if a in run(k).nodes[n].table { RowIsKnown(t, run(k), n, a); }
      }
      assert forall a :: a in run(j).nodes[n].table <==> a in run(k).nodes[n].table by {
        forall a ensures a in run(j).nodes[n].table <==> a in run(k).nodes[n].table {
          assert SameRow(run(k), run(j), n, a);
        }
      }
      forall a | a in run(j).nodes[n].table ensures run(j).nodes[n].table[a] == run(k).nodes[n].table[a] {
        assert SameRow(run(k), run(j), n, a);
      }
    }
  }

  lemma RowIsKnown(t: Topology, s: State, n: NodeId, a: Ip)
    requires Inv(t, s) && n in s.nodes && a in s.nodes[n].table
    ensures a in Addresses(t)
  {
    assert RowOk(t, s, n, a);
    var o :| OwnsAt(t, o, a);
  }

  // ---- Counting packets in flight ----

  ghost function Count(net: multiset<Packet>, f: Packet -> bool): nat
    decreases |net|
  {
    if net == multiset{} then 0
    else
      var p :| p in net;
      Count(net - multiset{p}, f) + (if f(p) then 1 else 0)
  }

  lemma {:induction false} CountRemove(net: multiset<Packet>, f: Packet -> bool, p: Packet)
    requires p in net
    ensures Count(net, f) == Count(net - multiset{p}, f) + (if f(p) then 1 else 0)
    decreases |net|
  {
    var x :| x in net && Count(net, f) == Count(net - multiset{x}, f) + (if f(x) then 1 else 0);
    if x != p {
      CountRemove(net - multiset{x}, f, p);
      CountRemove(net - multiset{p}, f, x);
      assert net - multiset{x} - multiset{p} == net - multiset{p} - multiset{x};
    }
  }

  lemma {:induction false} CountAddNone(net: multiset<Packet>, air: multiset<Packet>, f: Packet -> bool)
    requires forall q :: q in air ==> !f(q)
    ensures Count(net + air, f) == Count(net, f)
    decreases |air|
  {
    if air == multiset{} {
      assert net + air == net;
    } else {
      var q :| q in air;
      CountRemove(net + air, f, q);
      assert net + air - multiset{q} == net + (air - multiset{q});
      CountAddNone(net, air - multiset{q}, f);
    }
  }

  /** Deliveries and losses that put no `f` packet on the air use up `f` packets. */
  lemma StepCount(t: Topology, s: State, e: Event, s': State, f: Packet -> bool)
    requires Next(t, s, e, s') && (e.Lose? || e.Deliver?)
    requires e.Deliver? ==> forall q :: q in e.air ==> !f(q)
    ensures Count(s'.net, f) == Count(s.net, f) - (if f(e.p) then 1 else 0)
  {
    CountRemove(s.net, f, e.p);
    if e.Deliver? { CountAddNone(s.net - multiset{e.p}, e.air, f); }
  }

  /** From `i` on, only losses and deliveries that put no `f` packet on the air. */
  ghost predicate NoneAdded(ev: nat -> Event, i: nat, f: Packet -> bool) {
    forall j :: i <= j ==> (ev(j).Lose? || ev(j).Deliver?) && (ev(j).Deliver? ==> forall q :: q in ev(j).air ==> !f(q))
  }

  lemma {:induction false} CountAt(t: Topology, run: nat -> State, ev: nat -> Event, i: nat, j: nat, f: Packet -> bool)
    requires InfiniteRun(t, run, ev) && i <= j && NoneAdded(ev, i, f)
    ensures Count(run(j).net, f) <= Count(run(i).net, f)
    decreases j
  {
    if i < j {
      CountAt(t, run, ev, i, j - 1, f);
      assert Next(t, run(j - 1), ev(j - 1), run(j));
      StepCount(t, run(j - 1), ev(j - 1), run(j), f);
    }
  }

  lemma {:induction false} DeliveriesStop(t: Topology, run: nat -> State, ev: nat -> Event, i: nat, f: Packet -> bool)
    returns (k: nat)
    requires InfiniteRun(t, run, ev) && NoneAdded(ev, i, f)
    ensures i <= k
    ensures forall j :: k <= j && ev(j).Deliver? ==> !f(ev(j).p)
    decreases Count(run(i).net, f)
  {
    if j :| i <= j && ev(j).Deliver? && f(ev(j).p) {
      CountAt(t, run, ev, i, j, f);
      assert Next(t, run(j), ev(j), run(j + 1));
      StepCount(t, run(j), ev(j), run(j + 1), f);
      k := DeliveriesStop(t, run, ev, j + 1, f);
    } else {
      k := i;
    }
  }

  // ---- Flooding stops ----

  /** With its table unchanged, a node does not pass an RREQ on. */
  lemma UnchangedStopsFlood(t: Topology, s: State, e: Event, s': State)
    requires Next(t, s, e, s') && e.Deliver? && e.p.frame.hdr.kind == Rreq
    requires s'.nodes[e.p.to].table == s.nodes[e.p.to].table
    ensures forall q :: q in e.air ==> q.frame.hdr.kind != Rreq
  {
  }

  /** From `k` on no RREQ is delivered or put on the air. */
  ghost predicate NoFlood(ev: nat -> Event, k: nat) {
    forall j :: k <= j && ev(j).Deliver? ==>
      ev(j).p.frame.hdr.kind != Rreq && forall q :: q in ev(j).air ==> q.frame.hdr.kind != Rreq
  }

  /** With nothing new on the air but answers, only finitely many RREQs are ever delivered. */
  lemma FloodStops(t: Topology, run: nat -> State, ev: nat -> Event, i: nat) returns (k: nat)
    requires Configured(t) && InfiniteRun(t, run, ev)
    requires forall j :: i <= j ==> Calm(ev(j))
    ensures i <= k && NoFlood(ev, k)
  {
    var k0 := TablesSettle(t, run, ev, i);
    var isRreq := (p: Packet) => p.frame.hdr.kind == Rreq;
    forall j | k0 <= j && ev(j).Deliver? ensures forall q :: q in ev(j).air ==> q.frame.hdr.kind != Rreq {
      assert Calm(ev(j)) && Next(t, run(j), ev(j), run(j + 1));
      if ev(j).p.frame.hdr.kind == Rreq { UnchangedStopsFlood(t, run(j), ev(j), run(j + 1)); }
    }
    k := DeliveriesStop(t, run, ev, k0, isRreq);
  }

  // ---- What starts a flood, read off the frame and the table ----

  /** A daemon that owns the target floods on an RREP from an address of its own, and
      on a payload request it has no row back for. */
  predicate StartsFlood(ifs: seq<Iface>, node: Node, h: Header) {
    match h.kind
    case Rrep => Owns(ifs, h.dest) && Owns(ifs, h.src)
    case PayloadReq => Owns(ifs, h.dest) && h.src !in node.table
    case _ => false
  }

  ghost predicate SendsRreq(out: seq<Frame>) {
    exists g :: g in out && g.hdr.kind == Rreq
  }

  lemma PayloadFloodsIff(ifs: seq<Iface>, node: Node, src: Ip, dest: Ip, kind: Kind, msg: string)
    requires ifs != [] && kind != Rreq
    ensures SendsRreq(PayloadFrames(ifs, node, src, dest, kind, msg, 0)) <==> dest !in node.table
  {
    if dest !in node.table {
      FloodOpens(ifs, |ifs|, node.bid, dest);
      var out := FloodFrames(ifs, |ifs|, node.bid, dest, 0);
      assert out[0] in out;
    }
  }

  /** Anything but an RREQ makes a daemon send RREQs exactly under that guard. */
  lemma StartsFloodIff(ifs: seq<Iface>, node: Node, f: Frame, now: nat, stray: Mac, reply: string)
    requires f.hdr.kind != Rreq && forall a :: a in node.table ==> !Owns(ifs, a)
    ensures SendsRreq(Process(ifs, node, f, now, stray, reply).1) <==> StartsFlood(ifs, node, f.hdr)
  {
    var h, node' := f.hdr, node.(table := Learned(ifs, node.table, f, now));
    if ifs != [] {
      PayloadFloodsIff(ifs, node', h.dest, h.src, PayloadReq, " ");
      PayloadFloodsIff(ifs, node', h.dest, h.src, PayloadResp, reply);
      PayloadFloodsIff(ifs, node', h.src, h.dest, h.kind, h.msg);
    }
    assert forall a :: a in node'.table ==> !Owns(ifs, a);
  }

  /** A request, a repeated frame, or a delivery that starts a flood. */
  ghost predicate Stirs(t: Topology, s: State, e: Event) {
    || e.Ask? || e.Duplicate?
    || (e.Deliver? && e.p.to in t.ifs && e.p.to in s.nodes
        && StartsFlood(t.ifs[e.p.to], s.nodes[e.p.to], e.p.frame.hdr))
  }

  /** That, or a delivery that reads in front of the row array. */
  ghost predicate Disturbs(t: Topology, s: State, e: Event) {
    || Stirs(t, s, e)
    || (e.Deliver? && e.p.to in t.ifs && e.p.to in s.nodes
        && LacksRow(t.ifs[e.p.to], s.nodes[e.p.to], e.p.frame.hdr))
  }

  /** What is not calm stirs, and what is not quiet disturbs. */
  lemma UnquietIsDisturbed(t: Topology, s: State, e: Event, s': State)
    requires Inv(t, s) && Next(t, s, e, s')
    ensures !Calm(e) ==> Stirs(t, s, e)
    ensures !Quiet(e) ==> Disturbs(t, s, e)
  {
    if e.Deliver? {
      var n, f := e.p.to, e.p.frame;
      forall a | a in s.nodes[n].table ensures !Owns(t.ifs[n], a) { assert RowOk(t, s, n, a); }
      if f.hdr.kind != Rreq { StartsFloodIff(t.ifs[n], s.nodes[n], f, s.clock, e.stray, e.reply); }
      AnswerAstrayIff(t.ifs[n], s.nodes[n], f, s.clock, e.stray, e.stray + 1, e.reply);
      AnswerRouted(t.ifs[n], s.nodes[n], f, s.clock, e.stray, e.reply);
    }
  }

  /** A payload is sent only along a row. */
  lemma AnswerRouted(ifs: seq<Iface>, node: Node, f: Frame, now: nat, stray: Mac, reply: string)
    ensures var (node', out) := Process(ifs, node, f, now, stray, reply);
            forall g :: g in out && !IsControl(g.hdr) ==> g.hdr.dest in node'.table
  {
    var h, node' := f.hdr, node.(table := Learned(ifs, node.table, f, now));
    PayloadRouted(ifs, node', h.dest, h.src, PayloadReq, " ");
    PayloadRouted(ifs, node', h.dest, h.src, PayloadResp, reply);
    PayloadRouted(ifs, node', h.src, h.dest, h.kind, h.msg);
  }

  lemma PayloadRouted(ifs: seq<Iface>, node: Node, src: Ip, dest: Ip, kind: Kind, msg: string)
    ensures forall g :: g in PayloadFrames(ifs, node, src, dest, kind, msg, 0) && !IsControl(g.hdr) ==>
              g.hdr.dest in node.table
  {
    FloodKinds(ifs, |ifs|, node.bid, dest, 0);
  }

  /** Beyond any point of an infinite run something stirs, or flooding has stopped. */
  lemma FloodStopsUnlessStirred(t: Topology, run: nat -> State, ev: nat -> Event, i: nat)
    requires Configured(t) && InfiniteRun(t, run, ev)
    ensures (exists j :: i <= j && !Calm(ev(j)) && Stirs(t, run(j), ev(j))) || exists k :: i <= k && NoFlood(ev, k)
  {
    if j :| i <= j && !Calm(ev(j)) {
      InvAt(t, run, ev, j);
      assert Next(t, run(j), ev(j), run(j + 1));
      UnquietIsDisturbed(t, run(j), ev(j), run(j + 1));
    } else {
      var k := FloodStops(t, run, ev, i);
    }
  }

  // ---- Silence ----

  /** RREPs outlive payload requests, which outlive responses; within a kind, the
      longer the trail the closer to the target. */
  function Level(size: nat, p: Packet): int {
    var k := match p.frame.hdr.kind case Rreq => 3 case Rrep => 2 case PayloadReq => 1 case PayloadResp => 0;
    k * (size + 1) + (size - |p.trail|)
  }

  /** Answering a non-RREQ only puts lower-level packets on the air. */
  lemma AnswersDescend(t: Topology, s: State, e: Event, s': State, q: Packet)
    requires Configured(t) && Inv(t, s) && Next(t, s, e, s') && e.Deliver? && Quiet(e)
    requires e.p.frame.hdr.kind != Rreq && q in e.air && q.frame.hdr.kind != Rreq
    ensures 0 <= Level(|t.ifs|, q) < Level(|t.ifs|, e.p)
  {
    var n, f := e.p.to, e.p.frame;
    var (node, out) := Process(t.ifs[n], s.nodes[n], f, s.clock, e.stray, e.reply);
    NextKeepsInv(t, s, e, s');
    assert PacketOk(t, s', q);
    TrailFits(t, s', q);
    assert PacketOk(t, s, e.p);
    TrailFits(t, s, e.p);
    if f.hdr.kind == Rrep {
      PayloadKinds(t.ifs[n], node, f.hdr.dest, f.hdr.src, PayloadReq, " ", 0);
    } else {
      PayloadKinds(t.ifs[n], node, f.hdr.dest, f.hdr.src, PayloadResp, e.reply, 0);
      PayloadKinds(t.ifs[n], node, f.hdr.src, f.hdr.dest, f.hdr.kind, f.hdr.msg, 0);
    }
  }

  lemma TrailFits(t: Topology, s: State, p: Packet)
    requires Configured(t) && Inv(t, s) && PacketOk(t, s, p)
    ensures |p.trail| < |t.ifs|
  {
    if p.trail == [] {
      assert p.to in t.ifs.Keys;
    } else {
      var path := p.trail + [p.to];
      HopsNeverRepeat(t, s, p.frame.hdr.dest, path);
      PathInside(t, s, p.frame.hdr.dest, path);
      DistinctFits(path, t.ifs.Keys);
    }
  }

  lemma {:induction false} LevelsDrain(t: Topology, run: nat -> State, ev: nat -> Event, i: nat, level: nat)
    returns (k: nat)
    requires Configured(t) && InfiniteRun(t, run, ev)
    requires forall j :: i <= j ==> Quiet(ev(j))
    requires forall j :: i <= j && ev(j).Deliver? ==>
               ev(j).p.frame.hdr.kind != Rreq && forall q :: q in ev(j).air ==> q.frame.hdr.kind != Rreq
    ensures i <= k
    ensures forall j :: k <= j && ev(j).Deliver? ==> Level(|t.ifs|, ev(j).p) < level
    decreases 3 * (|t.ifs| + 1) - level
  {
    if level >= 3 * (|t.ifs| + 1) {
      k := i;
    } else {
      var k0 := LevelsDrain(t, run, ev, i, level + 1);
      var here := (p: Packet) => Level(|t.ifs|, p) == level;
      forall j | k0 <= j && ev(j).Deliver? ensures forall q :: q in ev(j).air ==> !here(q) {
        forall q | q in ev(j).air ensures !here(q) {
          InvAt(t, run, ev, j);
          assert Next(t, run(j), ev(j), run(j + 1));
          AnswersDescend(t, run(j), ev(j), run(j + 1), q);
        }
      }
      assert NoneAdded(ev, k0, here);
      k := DeliveriesStop(t, run, ev, k0, here);
    }
  }

  lemma {:induction false} LossesShrink(t: Topology, run: nat -> State, ev: nat -> Event, i: nat, m: nat)
    requires InfiniteRun(t, run, ev)
    requires forall j :: i <= j ==> ev(j).Lose?
    ensures |run(i + m).net| + m == |run(i).net|
  {
    if m > 0 {
      LossesShrink(t, run, ev, i, m - 1);
      assert Next(t, run(i + m - 1), ev(i + m - 1), run(i + m));
    }
  }

  lemma SomeUnquiet(t: Topology, run: nat -> State, ev: nat -> Event, i: nat)
    requires Configured(t) && InfiniteRun(t, run, ev)
    ensures exists j :: i <= j && !Quiet(ev(j))
  {
    if forall j :: i <= j ==> Quiet(ev(j)) {
      var k0 := FloodStops(t, run, ev, i);
      var k := LevelsDrain(t, run, ev, k0, 0);
      forall j | k <= j ensures ev(j).Lose? {
        assert Quiet(ev(j));
        if ev(j).Deliver? {
          InvAt(t, run, ev, j);
          assert Next(t, run(j), ev(j), run(j + 1));
          assert PacketOk(t, run(j), ev(j).p);
          TrailFits(t, run(j), ev(j).p);
        }
      }
      LossesShrink(t, run, ev, k, |run(k).net| + 1);
    }
  }

  /** A network left alone falls silent: beyond any point of an infinite run there
      is an event that is not quiet, and that is a client request, a duplication, or a
      delivery whose frame and table say that it starts a flood or reads astray. */
  lemma NetworkFallsSilent(t: Topology, run: nat -> State, ev: nat -> Event, i: nat)
    requires Configured(t) && InfiniteRun(t, run, ev)
    ensures exists j :: i <= j && !Quiet(ev(j)) && Disturbs(t, run(j), ev(j))
  {
    SomeUnquiet(t, run, ev, i);
    var j :| i <= j && !Quiet(ev(j));
    InvAt(t, run, ev, j);
    assert Next(t, run(j), ev(j), run(j + 1));
    UnquietIsDisturbed(t, run(j), ev(j), run(j + 1));
  }
}
