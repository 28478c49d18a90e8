/** A network of ODR daemons (hw3/odr.c), as a state machine over whole runs.

Frames in flight form a bag: each may be delivered, lost or duplicated, in any
order. A unicast frame is heard only by the node that owns the addressed MAC; a
broadcast is heard by whichever nodes the environment picks. No routing table is
cleared during a run. The clock counts steps; a row's `ts` is the step that
created it.
*/
module OdrNetwork {
  import opened RoutingTable
  import opened OdrNode

  type NodeId = nat

  /** Every node's interfaces, and which node owns a MAC. */
  datatype Topology = Topology(ifs: map<NodeId, seq<Iface>>, owner: map<Mac, NodeId>)

  /** A frame in flight to `to`. `trail` records the nodes that passed this payload
      or RREP along one of their rows; it is empty for RREQs and stray RREPs. */
  datatype Packet = Packet(to: NodeId, frame: Frame, trail: seq<NodeId>)

  datatype State = State(nodes: map<NodeId, Node>, net: multiset<Packet>, clock: nat)

  /** `air` is what the medium carries of the frames a step sends. */
  datatype Event =
    | Deliver(p: Packet, stray: Mac, reply: string, air: multiset<Packet>)
    | Ask(n: NodeId, dest: Ip, port: string, air: multiset<Packet>)
    | Lose(p: Packet)
    | Duplicate(p: Packet)

  ghost predicate Configured(t: Topology) {
    && (forall n, i :: n in t.ifs && 0 <= i < |t.ifs[n]| ==>
          var f := t.ifs[n][i];
          f.ip != "" && f.mac in t.owner && t.owner[f.mac] == n)
    && BROADCAST !in t.owner
    && (forall m :: m in t.owner ==> t.owner[m] in t.ifs)
  }

  predicate OwnsAt(t: Topology, n: NodeId, a: Ip) {
    n in t.ifs && Owns(t.ifs[n], a)
  }

  predicate Hears(t: Topology, dst: Mac, n: NodeId) {
    n in t.ifs && (dst == BROADCAST || (dst in t.owner && t.owner[dst] == n))
  }

  function TrailOf(n: NodeId, table: map<Ip, Row>, kind: Kind, prior: seq<NodeId>, f: Frame): seq<NodeId> {
    if f.hdr.kind == Rreq || f.hdr.dest !in table then []
    else if f.hdr.kind == kind then prior + [n]
    else [n]
  }

  ghost predicate Carried(t: Topology, n: NodeId, table: map<Ip, Row>, kind: Kind, prior: seq<NodeId>,
                          out: seq<Frame>, air: multiset<Packet>) {
    forall q :: q in air ==>
      q.frame in out && Hears(t, q.frame.dst, q.to) && q.trail == TrailOf(n, table, kind, prior, q.frame)
  }

  ghost predicate Next(t: Topology, s: State, e: Event, s': State) {
    match e
    case Deliver(p, stray, reply, air) =>
      && p in s.net && p.to in s.nodes && p.to in t.ifs
      && var (node, out) := Process(t.ifs[p.to], s.nodes[p.to], p.frame, s.clock, stray, reply);
         && Carried(t, p.to, node.table, p.frame.hdr.kind, p.trail, out, air)
         && s' == State(s.nodes[p.to := node], s.net - multiset{p} + air, s.clock + 1)
    case Ask(n, dest, _, air) =>
      && n in s.nodes && n in t.ifs && dest != ""
      && var (node, out) := Request(t.ifs[n], s.nodes[n], dest, 0);
         && Carried(t, n, node.table, Rreq, [], out, air)
         && s' == State(s.nodes[n := node], s.net + air, s.clock + 1)
    case Lose(p) => p in s.net && s' == State(s.nodes, s.net - multiset{p}, s.clock + 1)
    case Duplicate(p) => p in s.net && s' == State(s.nodes, s.net + multiset{p}, s.clock + 1)
  }

  ghost predicate Initial(t: Topology, s: State) {
    && s.nodes.Keys == t.ifs.Keys
    && (forall n :: n in s.nodes ==> s.nodes[n] == Node(map[], 1))
    && s.net == multiset{} && s.clock == 0
  }

  ghost predicate IsRun(t: Topology, run: seq<State>, events: seq<Event>) {
    && |run| == |events| + 1
    && Initial(t, run[0])
    && forall i :: 0 <= i < |events| ==> Next(t, run[i], events[i], run[i + 1])
  }

  lemma RunMore(t: Topology, run: seq<State>, events: seq<Event>, e: Event, s': State)
    requires IsRun(t, run, events) && Next(t, run[|events|], e, s')
    ensures IsRun(t, run + [s'], events + [e])
  {
    var run', events' := run + [s'], events + [e];
    forall i | 0 <= i < |events'| ensures Next(t, run'[i], events'[i], run'[i + 1]) {
      if i < |events| { assert Next(t, run[i], events[i], run[i + 1]); }
    }
  }

  // ---- The invariant ----

  /** Node `m` is an origin of `a`, or learned `a` before time `bound`. */
  predicate Knew(t: Topology, s: State, m: NodeId, a: Ip, bound: int) {
    && m in s.nodes && m in t.ifs
    && (Owns(t.ifs[m], a) || (a in s.nodes[m].table && s.nodes[m].table[a].ts < bound))
  }

  ghost predicate RowOk(t: Topology, s: State, n: NodeId, a: Ip)
    requires n in s.nodes && a in s.nodes[n].table
  {
    var row := s.nodes[n].table[a];
    && a != "" && !OwnsAt(t, n, a)
    && row.ts < s.clock
    && row.hop >= 0
    && row.nextHop in t.owner
    && Knew(t, s, t.owner[row.nextHop], a, row.ts)
    && (exists o :: OwnsAt(t, o, a))
  }

  ghost predicate RowsOk(t: Topology, s: State) {
    forall n, a :: n in s.nodes && a in s.nodes[n].table ==> RowOk(t, s, n, a)
  }

  /** Next hops for `a` lead along the path, node by node. */
  predicate HopsAlong(t: Topology, s: State, a: Ip, path: seq<NodeId>) {
    forall i :: 0 <= i < |path| - 1 ==> HopsTo(t, s, a, path[i], path[i + 1])
  }

  predicate HopsTo(t: Topology, s: State, a: Ip, n: NodeId, m: NodeId) {
    && n in s.nodes && a in s.nodes[n].table
    && s.nodes[n].table[a].nextHop in t.owner
    && t.owner[s.nodes[n].table[a].nextHop] == m
  }

  ghost predicate PacketOk(t: Topology, s: State, p: Packet) {
    var h := p.frame.hdr;
    && p.to in t.ifs
    && p.frame.src in t.owner
    && Addressed(h)
    && (IsControl(h) ==>
          && h.hop >= 0
          && (exists o :: OwnsAt(t, o, h.src))
          && Knew(t, s, t.owner[p.frame.src], h.src, s.clock))
    && (p.trail != [] ==> HopsAlong(t, s, h.dest, p.trail + [p.to]))
  }

  ghost predicate Inv(t: Topology, s: State) {
    && s.nodes.Keys == t.ifs.Keys
    && RowsOk(t, s)
    && forall p :: p in s.net ==> PacketOk(t, s, p)
  }

  // ---- Rows only accumulate ----

  /** Every row survives with its next hop and creation time; its broadcast id
      never falls and its hop count never rises. */
  ghost predicate Improves(r: map<Ip, Row>, r': map<Ip, Row>) {
    forall a :: a in r ==>
      && a in r'
      && r'[a].nextHop == r[a].nextHop && r'[a].ts == r[a].ts
      && r'[a].bid >= r[a].bid && r'[a].hop <= r[a].hop
  }

  ghost predicate Extends(s: State, s': State) {
    && s.nodes.Keys == s'.nodes.Keys && s.clock <= s'.clock
    && forall n :: n in s.nodes ==> Improves(s.nodes[n].table, s'.nodes[n].table)
  }

  lemma NextExtends(t: Topology, s: State, e: Event, s': State)
    requires Next(t, s, e, s')
    ensures Extends(s, s')
  {
  }

  lemma KnewStays(t: Topology, s: State, s': State, m: NodeId, a: Ip, b: int, b': int)
    requires Extends(s, s') && Knew(t, s, m, a, b) && b <= b'
    ensures Knew(t, s', m, a, b')
  {
    assert Improves(s.nodes[m].table, s'.nodes[m].table);
  }

  lemma HopsStay(t: Topology, s: State, s': State, a: Ip, path: seq<NodeId>)
    requires Extends(s, s') && HopsAlong(t, s, a, path)
    ensures HopsAlong(t, s', a, path)
  {
    forall i | 0 <= i < |path| - 1 ensures HopsTo(t, s', a, path[i], path[i + 1]) {
      assert HopsTo(t, s, a, path[i], path[i + 1]);
      assert Improves(s.nodes[path[i]].table, s'.nodes[path[i]].table);
    }
  }

  lemma PacketStaysOk(t: Topology, s: State, s': State, p: Packet)
    requires Extends(s, s') && PacketOk(t, s, p)
    ensures PacketOk(t, s', p)
  {
    if IsControl(p.frame.hdr) {
      KnewStays(t, s, s', t.owner[p.frame.src], p.frame.hdr.src, s.clock, s'.clock);
    }
    if p.trail != [] { HopsStay(t, s, s', p.frame.hdr.dest, p.trail + [p.to]); }
  }

  // ---- What one node sends ----

  /** A frame a node may send: from one of its interfaces, about an address it owns
      or has a row for, and along its row if it has one for the target. */
  ghost predicate FrameOk(ifs: seq<Iface>, table: map<Ip, Row>, f: Frame) {
    && (exists i :: 0 <= i < |ifs| && ifs[i].mac == f.src)
    && Addressed(f.hdr)
    && (IsControl(f.hdr) ==> f.hdr.hop >= 0 && (Owns(ifs, f.hdr.src) || f.hdr.src in table))
    && (f.hdr.kind != Rreq && f.hdr.dest in table ==> f.dst == table[f.hdr.dest].nextHop)
  }

  ghost predicate FramesOk(ifs: seq<Iface>, table: map<Ip, Row>, out: seq<Frame>) {
    forall f :: f in out ==> FrameOk(ifs, table, f)
  }

  lemma SendAllOk(ifs: seq<Iface>, table: map<Ip, Row>, dst: Mac, h: Header)
    requires Addressed(h)
    requires IsControl(h) ==> h.hop >= 0 && (Owns(ifs, h.src) || h.src in table)
    requires h.kind != Rreq && h.dest in table ==> dst == table[h.dest].nextHop
    ensures FramesOk(ifs, table, SendAll(ifs, dst, h))
  {
  }

  lemma {:induction false} FloodOk(ifs: seq<Iface>, k: nat, table: map<Ip, Row>, bcid: int, dest: Ip, force: int)
    requires k <= |ifs| && dest != ""
    requires forall i :: 0 <= i < |ifs| ==> ifs[i].ip != ""
    ensures FramesOk(ifs, table, FloodFrames(ifs, k, bcid, dest, force))
  {
    if k > 0 {
      FloodOk(ifs, k - 1, table, bcid, dest, force);
      SendAllOk(ifs, table, BROADCAST, Header(ifs[k - 1].ip, dest, 1, bcid, Rreq, force, ""));
    }
  }

  lemma PayloadOk(ifs: seq<Iface>, node: Node, src: Ip, dest: Ip, kind: Kind, msg: string, force: int)
    requires forall i :: 0 <= i < |ifs| ==> ifs[i].ip != ""
    requires src != "" && dest != "" && kind != Rreq && kind != Rrep
    ensures FramesOk(ifs, node.table, PayloadFrames(ifs, node, src, dest, kind, msg, force))
  {
    if dest !in node.table {
      FloodOk(ifs, |ifs|, node.table, node.bid, dest, force);
    } else {
      var row := node.table[dest];
      SendAllOk(ifs, node.table, row.nextHop, Header(src, dest, row.hop, node.bid, kind, force, msg));
    }
  }

  lemma AnswerOk(ifs: seq<Iface>, node: Node, changed: bool, h: Header, stray: Mac, reply: string)
    requires forall i :: 0 <= i < |ifs| ==> ifs[i].ip != ""
    requires Addressed(h)
    requires IsControl(h) ==> h.hop >= 0 && (Owns(ifs, h.src) || h.src in node.table)
    ensures FramesOk(ifs, node.table, Answer(ifs, node, changed, h, stray, reply))
  {
    match h.kind
    case Rreq =>
      SendAllOk(ifs, node.table, BROADCAST, Header(h.src, h.dest, h.hop + 1, h.bcid, Rreq, h.force, ""));
      if Owns(ifs, h.dest) || h.dest in node.table {
        SendAllOk(ifs, node.table, if h.src in node.table then node.table[h.src].nextHop else stray,
                  Header(h.dest, h.src, 1, h.bcid, Rrep, 0, ""));
      }
    case Rrep =>
      PayloadOk(ifs, node, h.dest, h.src, PayloadReq, " ", 0);
      SendAllOk(ifs, node.table, if h.dest in node.table then node.table[h.dest].nextHop else stray,
                Header(h.src, h.dest, h.hop + 1, h.bcid, Rrep, 0, ""));
    case PayloadReq =>
      PayloadOk(ifs, node, h.dest, h.src, PayloadResp, reply, 0);
      PayloadOk(ifs, node, h.src, h.dest, h.kind, h.msg, 0);
    case PayloadResp =>
      PayloadOk(ifs, node, h.src, h.dest, h.kind, h.msg, 0);
  }

  lemma {:induction false} RequestOk(ifs: seq<Iface>, k: nat, node: Node, dest: Ip, force: int)
    requires forall i :: 0 <= i < |ifs| ==> ifs[i].ip != ""
    requires k <= |ifs| && dest != ""
    ensures FramesOk(ifs, node.table, RequestFrames(ifs, k, node, dest, force))
  {
    if k > 0 {
      RequestOk(ifs, k - 1, node, dest, force);
      PayloadOk(ifs, node, ifs[k - 1].ip, dest, PayloadReq, " ", force);
    }
  }

  // ---- Every step keeps the invariant ----

  /** A packet carrying a frame that node `n` may send is in order once `n`'s rows are. */
  lemma FreshPacketOk(t: Topology, s: State, n: NodeId, kind: Kind, prior: seq<NodeId>, q: Packet)
    requires Configured(t) && n in t.ifs && n in s.nodes && s.nodes.Keys == t.ifs.Keys
    requires RowsOk(t, s)
    requires FrameOk(t.ifs[n], s.nodes[n].table, q.frame)
    requires Hears(t, q.frame.dst, q.to)
    requires q.trail == TrailOf(n, s.nodes[n].table, kind, prior, q.frame)
    requires q.frame.hdr.kind == kind && prior != [] ==> HopsAlong(t, s, q.frame.hdr.dest, prior + [n])
    ensures PacketOk(t, s, q)
  {
    var h, table := q.frame.hdr, s.nodes[n].table;
    assert t.owner[q.frame.src] == n;
    if IsControl(h) {
      if Owns(t.ifs[n], h.src) { assert OwnsAt(t, n, h.src); } else { assert RowOk(t, s, n, h.src); }
    }
    if q.trail != [] {
      assert RowOk(t, s, n, h.dest);
      assert HopsTo(t, s, h.dest, n, q.to);
      var path := q.trail + [q.to];
      forall i | 0 <= i < |path| - 1 ensures HopsTo(t, s, h.dest, path[i], path[i + 1]) {
        if i < |path| - 2 { assert (prior + [n])[i] == path[i] && (prior + [n])[i + 1] == path[i + 1]; }
      }
    }
  }

  lemma OldRowOk(t: Topology, s: State, s': State, n: NodeId, a: Ip)
    requires Extends(s, s') && n in s.nodes && a in s.nodes[n].table && RowOk(t, s, n, a)
    requires s'.nodes[n].table[a].hop >= 0
    ensures RowOk(t, s', n, a)
  {
    var row := s.nodes[n].table[a];
    KnewStays(t, s, s', t.owner[row.nextHop], a, row.ts, row.ts);
  }

  /** The receiver's row for the frame's address, if new, points at a node that
      learned the address strictly earlier. */
  lemma NewRowOk(t: Topology, s: State, s': State, n: NodeId, f: Frame)
    requires Extends(s, s') && s.clock < s'.clock
    requires n in s.nodes && n in t.ifs && IsControl(f.hdr) && Addressed(f.hdr) && f.hdr.hop >= 0
    requires f.src in t.owner && Knew(t, s, t.owner[f.src], f.hdr.src, s.clock)
    requires exists o :: OwnsAt(t, o, f.hdr.src)
    requires !Owns(t.ifs[n], f.hdr.src)
    requires f.hdr.src in s'.nodes[n].table
    requires s'.nodes[n].table[f.hdr.src] == Row(f.src, f.hdr.hop, s.clock, f.hdr.bcid)
    ensures RowOk(t, s', n, f.hdr.src)
  {
    KnewStays(t, s, s', t.owner[f.src], f.hdr.src, s.clock, s.clock);
  }

  /** What the receiver's table holds after learning. */
  lemma LearnedCases(ifs: seq<Iface>, table: map<Ip, Row>, f: Frame, now: nat, a: Ip)
    requires a in Learned(ifs, table, f, now)
    ensures var row := Learned(ifs, table, f, now)[a];
            || (a in table && (row.hop == table[a].hop || (row.hop == f.hdr.hop && IsControl(f.hdr))))
            || (a !in table && a == f.hdr.src && IsControl(f.hdr) && !Owns(ifs, a)
                && row == Row(f.src, f.hdr.hop, now, f.hdr.bcid))
  {
  }

  lemma LearnedRow(t: Topology, s: State, s': State, p: Packet, n: NodeId, a: Ip)
    requires Extends(s, s') && s.clock < s'.clock && RowsOk(t, s) && PacketOk(t, s, p)
    requires p.to in s.nodes && n in s.nodes && a in s'.nodes[n].table
    requires n != p.to ==> s'.nodes[n] == s.nodes[n]
    requires n == p.to ==> s'.nodes[n].table == Learned(t.ifs[n], s.nodes[n].table, p.frame, s.clock)
    ensures RowOk(t, s', n, a)
  {
    if n == p.to { LearnedCases(t.ifs[n], s.nodes[n].table, p.frame, s.clock, a); }
    if a in s.nodes[n].table {
      assert RowOk(t, s, n, a);
      OldRowOk(t, s, s', n, a);
    } else {
      NewRowOk(t, s, s', n, p.frame);
    }
  }

  lemma LearnedRows(t: Topology, s: State, s': State, p: Packet)
    requires Extends(s, s') && s.clock < s'.clock && RowsOk(t, s) && PacketOk(t, s, p)
    requires p.to in s.nodes
    requires s'.nodes
             == s.nodes[p.to := s.nodes[p.to].(table := Learned(t.ifs[p.to], s.nodes[p.to].table, p.frame, s.clock))]
    ensures RowsOk(t, s')
  {
    forall n, a | n in s'.nodes && a in s'.nodes[n].table ensures RowOk(t, s', n, a) {
      LearnedRow(t, s, s', p, n, a);
    }
  }

  lemma AskRows(t: Topology, s: State, e: Event, s': State)
    requires Inv(t, s) && Next(t, s, e, s') && !e.Deliver?
    ensures RowsOk(t, s')
  {
    NextExtends(t, s, e, s');
    forall n, a | n in s'.nodes && a in s'.nodes[n].table ensures RowOk(t, s', n, a) {
      assert RowOk(t, s, n, a);
      OldRowOk(t, s, s', n, a);
    }
  }

  lemma AnswerPacket(t: Topology, s: State, p: Packet, changed: bool, stray: Mac, reply: string, q: Packet)
    requires Configured(t) && s.nodes.Keys == t.ifs.Keys && RowsOk(t, s) && PacketOk(t, s, p)
    requires IsControl(p.frame.hdr) ==> Owns(t.ifs[p.to], p.frame.hdr.src) || p.frame.hdr.src in s.nodes[p.to].table
    requires q.frame in Answer(t.ifs[p.to], s.nodes[p.to], changed, p.frame.hdr, stray, reply)
    requires Hears(t, q.frame.dst, q.to)
    requires q.trail == TrailOf(p.to, s.nodes[p.to].table, p.frame.hdr.kind, p.trail, q.frame)
    ensures PacketOk(t, s, q)
  {
    AnswerOk(t.ifs[p.to], s.nodes[p.to], changed, p.frame.hdr, stray, reply);
    if q.frame.hdr.kind == p.frame.hdr.kind && q.frame.hdr.kind != Rreq {
      SameKindSameTarget(t.ifs[p.to], s.nodes[p.to], changed, p.frame.hdr, stray, reply, q.frame);
    }
    FreshPacketOk(t, s, p.to, p.frame.hdr.kind, p.trail, q);
  }

  /** A node forwards a payload or RREP under its own kind only towards the same target. */
  lemma SameKindSameTarget(ifs: seq<Iface>, node: Node, changed: bool, h: Header, stray: Mac, reply: string, f: Frame)
    requires f in Answer(ifs, node, changed, h, stray, reply)
    requires f.hdr.kind == h.kind && h.kind != Rreq
    ensures f.hdr.dest == h.dest && f.hdr.src == h.src
  {
    match h.kind
    case Rrep => PayloadKinds(ifs, node, h.dest, h.src, PayloadReq, " ", 0);
    case PayloadReq =>
      PayloadKinds(ifs, node, h.dest, h.src, PayloadResp, reply, 0);
      PayloadKinds(ifs, node, h.src, h.dest, h.kind, h.msg, 0);
    case PayloadResp => PayloadKinds(ifs, node, h.src, h.dest, h.kind, h.msg, 0);
  }

  lemma {:induction false} FloodKinds(ifs: seq<Iface>, k: nat, bcid: int, dest: Ip, force: int)
    requires k <= |ifs|
    ensures forall f :: f in FloodFrames(ifs, k, bcid, dest, force) ==> f.hdr.kind == Rreq
  {
    if k > 0 { FloodKinds(ifs, k - 1, bcid, dest, force); }
  }

  lemma PayloadKinds(ifs: seq<Iface>, node: Node, src: Ip, dest: Ip, kind: Kind, msg: string, force: int)
    ensures forall f :: f in PayloadFrames(ifs, node, src, dest, kind, msg, force) ==>
              f.hdr.kind == Rreq || (f.hdr.kind == kind && f.hdr.src == src && f.hdr.dest == dest)
  {
    FloodKinds(ifs, |ifs|, node.bid, dest, force);
  }

  lemma AskPacket(t: Topology, s: State, e: Event, s': State, q: Packet)
    requires Configured(t) && Inv(t, s) && Next(t, s, e, s') && e.Ask? && RowsOk(t, s')
    requires q in e.air
    ensures PacketOk(t, s', q)
  {
    RequestOk(t.ifs[e.n], |t.ifs[e.n]|, s'.nodes[e.n], e.dest, 0);
    FreshPacketOk(t, s', e.n, Rreq, [], q);
  }

  lemma DeliverKeepsInv(t: Topology, s: State, e: Event, s': State)
    requires Configured(t) && Inv(t, s) && Next(t, s, e, s') && e.Deliver?
    ensures Inv(t, s')
  {
    NextExtends(t, s, e, s');
    var p := e.p;
    assert PacketOk(t, s, p);
    var node := Process(t.ifs[p.to], s.nodes[p.to], p.frame, s.clock, e.stray, e.reply).0;
    LearnedRows(t, s, s', p);
    PacketStaysOk(t, s, s', p);
    forall q | q in s'.net ensures PacketOk(t, s', q) {
      if q in s.net {
        PacketStaysOk(t, s, s', q);
      } else {
        AnswerPacket(t, s', p, node.table != s.nodes[p.to].table, e.stray, e.reply, q);
      }
    }
  }

  lemma NextKeepsInv(t: Topology, s: State, e: Event, s': State)
    requires Configured(t) && Inv(t, s) && Next(t, s, e, s')
    ensures Inv(t, s')
  {
    if e.Deliver? {
      DeliverKeepsInv(t, s, e, s');
    } else {
      NextExtends(t, s, e, s');
      AskRows(t, s, e, s');
      forall q | q in s'.net ensures PacketOk(t, s', q) {
        if q in s.net { PacketStaysOk(t, s, s', q); } else { AskPacket(t, s, e, s', q); }
      }
    }
  }

  lemma {:induction false} RunInv(t: Topology, run: seq<State>, events: seq<Event>, k: nat)
    requires Configured(t) && IsRun(t, run, events) && k < |run|
    ensures Inv(t, run[k])
  {
    if k > 0 {
      RunInv(t, run, events, k - 1);
      NextKeepsInv(t, run[k - 1], events[k - 1], run[k]);
    }
  }
}
