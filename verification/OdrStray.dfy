/** The missing-row read of `send_rrep` (hw3/odr.c:260-273): without a row for the
target it takes the next hop from the memory in front of the row array. Exactly
which deliveries do that, and that they happen. */
module OdrStray {
  import opened RoutingTable
  import opened OdrNode
  import opened OdrNetwork
  import opened OdrRoutes
  import opened OdrClients
  import opened OdrDiscovery

  /** What the node sends depends on the memory in front of its row array. */
  ghost predicate ReadsAstray(ifs: seq<Iface>, node: Node, f: Frame, now: nat, reply: string) {
    exists x, y :: Process(ifs, node, f, now, x, reply).1 != Process(ifs, node, f, now, y, reply).1
  }

  /** It sends an RREP for a target it has no row for. */
  ghost predicate SendsAstray(ifs: seq<Iface>, node: Node, f: Frame, now: nat, stray: Mac, reply: string) {
    var (node', out) := Process(ifs, node, f, now, stray, reply);
    exists g :: g in out && g.hdr.kind == Rrep && g.hdr.dest !in node'.table
  }

  /** The guard, on the frame and the state before it is processed: an RREQ of the
      node's own that it could answer, or an RREP for somebody else it cannot place. */
  predicate LacksRow(ifs: seq<Iface>, node: Node, h: Header) {
    match h.kind
    case Rreq => Owns(ifs, h.src) && (Owns(ifs, h.dest) || h.dest in node.table)
    case Rrep => ifs != [] && !Owns(ifs, h.dest) && h.dest !in node.table && h.dest != h.src
    case _ => false
  }

  lemma NoRrepFromPayload(ifs: seq<Iface>, node: Node, src: Ip, dest: Ip, kind: Kind, msg: string)
    requires kind == PayloadReq || kind == PayloadResp
    ensures forall g :: g in PayloadFrames(ifs, node, src, dest, kind, msg, 0) ==> g.hdr.kind != Rrep
  {
    PayloadKinds(ifs, node, src, dest, kind, msg, 0);
  }

  /** The frames of an RREP to `dest`: they depend on `stray` exactly without a row. */
  lemma RrepAstray(ifs: seq<Iface>, table: map<Ip, Row>, bcid: int, hop: int, dest: Ip, src: Ip, x: Mac, y: Mac)
    requires x != y
    ensures RrepFrames(ifs, table, bcid, hop, dest, src, x) != RrepFrames(ifs, table, bcid, hop, dest, src, y)
            <==> ifs != [] && dest !in table
    ensures (exists g :: g in RrepFrames(ifs, table, bcid, hop, dest, src, x) && g.hdr.dest !in table)
            <==> ifs != [] && dest !in table
  {
    var out, out' := RrepFrames(ifs, table, bcid, hop, dest, src, x), RrepFrames(ifs, table, bcid, hop, dest, src, y);
    if ifs != [] { assert out[0] in out && out[0].hdr.dest == dest && (dest !in table ==> out[0] != out'[0]); }
  }

  /** Which answers read astray, for a node without rows for its own addresses. */
  lemma AnswerAstrayIff(ifs: seq<Iface>, node: Node, f: Frame, now: nat, x: Mac, y: Mac, reply: string)
    requires x != y && forall a :: a in node.table ==> !Owns(ifs, a)
    ensures Process(ifs, node, f, now, x, reply).1 != Process(ifs, node, f, now, y, reply).1
            <==> LacksRow(ifs, node, f.hdr)
    ensures SendsAstray(ifs, node, f, now, x, reply) <==> LacksRow(ifs, node, f.hdr)
  {
    var h, table := f.hdr, Learned(ifs, node.table, f, now);
    var node' := node.(table := table);
    match h.kind
    case Rreq =>
      if Owns(ifs, h.dest) || h.dest in table { RrepAstray(ifs, table, h.bcid, 1, h.src, h.dest, x, y); }
    case Rrep =>
      if Owns(ifs, h.dest) {
        NoRrepFromPayload(ifs, node', h.dest, h.src, PayloadReq, " ");
      } else {
        RrepAstray(ifs, table, h.bcid, h.hop + 1, h.dest, h.src, x, y);
      }
    case PayloadReq =>
      NoRrepFromPayload(ifs, node', h.dest, h.src, PayloadResp, reply);
      NoRrepFromPayload(ifs, node', h.src, h.dest, h.kind, h.msg);
    case PayloadResp =>
      NoRrepFromPayload(ifs, node', h.src, h.dest, h.kind, h.msg);
  }

  /** For every delivery of every run, the read goes astray exactly under the guard;
      and an RREP that meets it had itself gone astray before. */
  lemma StrayIff(t: Topology, run: seq<State>, events: seq<Event>, k: nat)
    requires Configured(t) && IsRun(t, run, events) && k < |events| && events[k].Deliver?
    ensures var e := events[k]; var n, f := e.p.to, e.p.frame;
            && n in t.ifs && n in run[k].nodes
            && (ReadsAstray(t.ifs[n], run[k].nodes[n], f, run[k].clock, e.reply)
                <==> LacksRow(t.ifs[n], run[k].nodes[n], f.hdr))
            && (SendsAstray(t.ifs[n], run[k].nodes[n], f, run[k].clock, e.stray, e.reply)
                <==> LacksRow(t.ifs[n], run[k].nodes[n], f.hdr))
            && (f.hdr.kind == Rrep && LacksRow(t.ifs[n], run[k].nodes[n], f.hdr) ==> e.p.trail == [])
  {
    var e, s := events[k], run[k];
    var n, f := e.p.to, e.p.frame;
    assert Next(t, s, e, run[k + 1]);
    RunInv(t, run, events, k);
    forall a | a in s.nodes[n].table ensures !Owns(t.ifs[n], a) { assert RowOk(t, s, n, a); }
    forall x, y | x != y
      ensures Process(t.ifs[n], s.nodes[n], f, s.clock, x, e.reply).1
              != Process(t.ifs[n], s.nodes[n], f, s.clock, y, e.reply).1
              <==> LacksRow(t.ifs[n], s.nodes[n], f.hdr)
    {
      AnswerAstrayIff(t.ifs[n], s.nodes[n], f, s.clock, x, y, e.reply);
    }
    AnswerAstrayIff(t.ifs[n], s.nodes[n], f, s.clock, e.stray, e.stray + 1, e.reply);
    if f.hdr.kind == Rrep && e.p.trail != [] { RoutedPacketHasRoute(t, run, events, k, e.p); }
  }

  // ---- It happens ----

  /** A delivery of `p` whose one frame, if carried at all, goes where `air` says. */
  lemma Take(t: Topology, s: State, n: NodeId, w: Till, p: Packet, node: Node, out: seq<Frame>, air: multiset<Packet>)
    returns (s': State, w': Till)
    requires n in t.ifs && Reaches(t, s, n, w) && p in s.net && p.to in s.nodes && p.to in t.ifs
    requires Process(t.ifs[p.to], s.nodes[p.to], p.frame, s.clock, 0, "") == (node, out)
    requires Carried(t, p.to, node.table, p.frame.hdr.kind, p.trail, out, air)
    ensures s' == State(s.nodes[p.to := node], s.net - multiset{p} + air, s.clock + 1) && Reaches(t, s', n, w')
  {
    s' := State(s.nodes[p.to := node], s.net - multiset{p} + air, s.clock + 1);
    assert Next(t, s, Deliver(p, 0, "", air), s');
    Extend(t, s, n, w, Deliver(p, 0, "", air), s');
    w' := TillStep(t, n, w, Deliver(p, 0, "", air));
  }

  /** A requester `n`, an owner `m` of the wanted address, and a bystander `r`. */
  ghost predicate Triangle(t: Topology, n: NodeId, m: NodeId, r: NodeId, a: Ip, d: Ip) {
    && Path(t, [n, m], a, d) && r in t.ifs && |t.ifs[r]| > 0 && r != n && r != m
    && !OwnsAt(t, r, a) && !OwnsAt(t, r, d)
  }

  function Rreq1(t: Topology, n: NodeId, a: Ip, d: Ip, hop: int): Frame
    requires n in t.ifs && |t.ifs[n]| > 0
  {
    Frame(BROADCAST, MacOf(t, n), Head(a, d, hop, Rreq, ""))
  }

  /** The request is heard by both others. */
  lemma BothHear(t: Topology, n: NodeId, m: NodeId, r: NodeId, a: Ip, d: Ip)
    returns (s: State, w: Till)
    requires Triangle(t, n, m, r, a, d)
    ensures n in t.ifs && |t.ifs[n]| > 0 && m in t.ifs && Reaches(t, s, n, w) && s.nodes.Keys == t.ifs.Keys
            && s.clock == 1
    ensures s.net == multiset{Packet(m, Rreq1(t, n, a, d, 1), []), Packet(r, Rreq1(t, n, a, d, 1), [])}
    ensures s.nodes[n] == Node(map[], 2) && s.nodes[m] == s.nodes[r] == Node(map[], 1)
  {
    var start := State(map i | i in t.ifs :: Node(map[], 1), multiset{}, 0);
    StartReached(t, start, n);
    assert [n, m][0] == n && [n, m][1] == m && n != m;
    var node := Node(map[], 2);
    RequestOpens(t.ifs[n], |t.ifs[n]|, node, d);
    var p, q := Packet(m, Rreq1(t, n, a, d, 1), []), Packet(r, Rreq1(t, n, a, d, 1), []);
    s := State(start.nodes[n := node], start.net + multiset{p, q}, 1);
    var e := Ask(n, d, "", multiset{p, q});
    assert Next(t, start, e, s);
    Extend(t, start, n, Opening(), e, s);
    w := TillStep(t, n, Opening(), e);
  }

  /** The bystander relays it back to the requester. */
  lemma RelayedBack(t: Topology, n: NodeId, m: NodeId, r: NodeId, a: Ip, d: Ip)
    returns (s: State, w: Till)
    requires Triangle(t, n, m, r, a, d)
    ensures n in t.ifs && |t.ifs[n]| > 0 && m in t.ifs && Reaches(t, s, n, w) && s.nodes.Keys == t.ifs.Keys
    ensures s.net == multiset{Packet(m, Rreq1(t, n, a, d, 1), []), Packet(n, Rreq1(t, r, a, d, 2), [])}
    ensures s.nodes[n] == Node(map[], 2) && s.nodes[m] == Node(map[], 1)
  {
    s, w := BothHear(t, n, m, r, a, d);
    var f := Rreq1(t, n, a, d, 1);
    var p, q := Packet(r, f, []), Packet(n, Rreq1(t, r, a, d, 2), []);
    assert OwnsAt(t, [n, m][0], a) && !OwnsAt(t, [n, m][0], d);
    RelayRequest(t.ifs[r], s.nodes[r], f, s.clock, a, d);
    var node := Node(map[a := Row(f.src, 1, s.clock, 2)], 1);
    s, w := Take(t, s, n, w, p, node, RreqFrames(t.ifs[r], 2, 2, a, d, 0), multiset{q});
  }

  /** The owner answers, and the requester learns the way to it. */
  lemma RequesterLearns(t: Topology, n: NodeId, m: NodeId, r: NodeId, a: Ip, d: Ip)
    returns (s: State, w: Till)
    requires Triangle(t, n, m, r, a, d)
    ensures n in t.ifs && |t.ifs[n]| > 0 && Reaches(t, s, n, w) && n in s.nodes
    ensures Packet(n, Rreq1(t, r, a, d, 2), []) in s.net
    ensures s.nodes[n].table.Keys == {d}
  {
    s, w := RelayedBack(t, n, m, r, a, d);
    var f := Rreq1(t, n, a, d, 1);
    assert [n, m][0] == n && [n, m][1] == m && n != m;
    assert OwnsAt(t, [n, m][0], a) && !OwnsAt(t, [n, m][0], d);
    assert !OwnsAt(t, [n, m][1], a) && OwnsAt(t, [n, m][1], d);
    AnswerRequest(t.ifs[m], s.nodes[m], f, s.clock, a, d);
    var node := Node(map[a := Row(f.src, 1, s.clock, 2)], 1);
    var g := Frame(f.src, MacOf(t, m), Head(d, a, 1, Rrep, ""));
    var q := Packet(n, g, [m]);
    s, w := Take(t, s, n, w, Packet(m, f, []), node, RrepFrames(t.ifs[m], node.table, 2, 1, a, d, 0), multiset{q});
    ReplyArrives(t.ifs[n], s.nodes[n], g, s.clock, a, d);
    var node' := s.nodes[n].(table := s.nodes[n].table[d := Row(g.src, 1, s.clock, 2)]);
    s, w := Take(t, s, n, w, q, node', PayloadFrames(t.ifs[n], node', a, d, PayloadReq, " ", 0), multiset{});
  }

  /** In every network with a requester, an owner of the wanted address and one more
      node, some run leads to a delivery that reads astray: the requester has learned
      the way when its own RREQ comes back to it. */
  lemma StrayHappens(t: Topology, n: NodeId, m: NodeId, r: NodeId, a: Ip, d: Ip)
    returns (s: State, w: Till, p: Packet)
    requires Triangle(t, n, m, r, a, d)
    ensures Reaches(t, s, n, w) && p in s.net && p.to == n && n in t.ifs && n in s.nodes
    ensures p.frame.hdr.kind == Rreq && ReadsAstray(t.ifs[n], s.nodes[n], p.frame, s.clock, "")
  {
    s, w := RequesterLearns(t, n, m, r, a, d);
    p := Packet(n, Rreq1(t, r, a, d, 2), []);
    assert OwnsAt(t, [n, m][0], a) && !OwnsAt(t, [n, m][0], d);
    AnswerAstrayIff(t.ifs[n], s.nodes[n], p.frame, s.clock, 0, 1, "");
  }
}
