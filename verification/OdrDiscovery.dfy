/** Route discovery completes (hw3/odr.c): along every path of nodes from a
requester to an owner of the wanted address there is a run in which the request
floods out, the reply comes back, the payload goes out and the answer returns. */
module OdrDiscovery {
  import opened OdrBuffer
  import opened RoutingTable
  import opened OdrNode
  import opened OdrNetwork
  import opened OdrClients

  /** Some run ends here, with the clients of node `n` at `w`. */
  ghost predicate Reaches(t: Topology, s: State, n: NodeId, w: Till) {
    exists run, events, tills ::
      IsRun(t, run, events) && Tills(t, n, events, tills) && run[|events|] == s && tills[|events|] == w
  }

  lemma Extend(t: Topology, s: State, n: NodeId, w: Till, e: Event, s': State)
    requires n in t.ifs && Reaches(t, s, n, w) && Next(t, s, e, s')
    ensures Reaches(t, s', n, TillStep(t, n, w, e))
  {
    var run, events, tills :|
      IsRun(t, run, events) && Tills(t, n, events, tills) && run[|events|] == s && tills[|events|] == w;
    RunMore(t, run, events, e, s');
    TillsMore(t, n, events, tills, e);
    var w' := TillStep(t, n, w, e);
    assert (run + [s'])[|events + [e]|] == s' && (tills + [w'])[|events + [e]|] == w';
  }

  lemma StartReached(t: Topology, s: State, n: NodeId)
    requires Initial(t, s) && n in t.ifs
    ensures Reaches(t, s, n, Opening())
  {
    var none: seq<Event> := [];
    assert IsRun(t, [s], none) && Tills(t, n, none, [Opening()]);
    assert [s][|none|] == s && [Opening()][|none|] == Opening();
  }

  /** Different nodes, the first an owner of `a` by its first interface, the last an
      owner of `d`, and no other node on the way owning either. */
  ghost predicate Path(t: Topology, path: seq<NodeId>, a: Ip, d: Ip) {
    && Configured(t) && |path| >= 2 && a != "" && d != ""
    && (forall i :: 0 <= i < |path| ==> path[i] in t.ifs && |t.ifs[path[i]]| > 0)
    && (forall i, j :: 0 <= i < j < |path| ==> path[i] != path[j])
    && t.ifs[path[0]][0].ip == a
    && (forall i :: 0 <= i < |path| ==> (OwnsAt(t, path[i], a) <==> i == 0))
    && (forall i :: 0 <= i < |path| ==> (OwnsAt(t, path[i], d) <==> i == |path| - 1))
  }

  /** Packet `p` is the only one in flight. */
  ghost predicate OnPath(t: Topology, s: State, w: Till, p: Packet, path: seq<NodeId>, a: Ip, d: Ip) {
    Path(t, path, a, d) && Reaches(t, s, path[0], w) && s.net == multiset{p}
  }

  function MacOf(t: Topology, n: NodeId): Mac
    requires n in t.ifs && |t.ifs[n]| > 0
  {
    t.ifs[n][0].mac
  }

  /** Only this packet is in flight; the node it is for answers with `out`, of which
      the medium carries one copy of the first frame to `to`. */
  lemma Hop(t: Topology, s: State, n: NodeId, w: Till, p: Packet, reply: string, node: Node, out: seq<Frame>,
            to: NodeId)
    returns (s': State, q: Packet)
    requires n in t.ifs && Reaches(t, s, n, w) && s.net == multiset{p} && p.to in s.nodes && p.to in t.ifs && out != []
    requires p.to != n || p.frame.hdr.kind != PayloadResp
    requires Process(t.ifs[p.to], s.nodes[p.to], p.frame, s.clock, 0, reply) == (node, out)
    requires Hears(t, out[0].dst, to)
    ensures s' == State(s.nodes[p.to := node], multiset{q}, s.clock + 1) && q.to == to && q.frame == out[0]
    ensures Reaches(t, s', n, w)
  {
    q := Packet(to, out[0], TrailOf(p.to, node.table, p.frame.hdr.kind, p.trail, out[0]));
    s' := State(s.nodes[p.to := node], s.net - multiset{p} + multiset{q}, s.clock + 1);
    assert Next(t, s, Deliver(p, 0, reply, multiset{q}), s');
    Extend(t, s, n, w, Deliver(p, 0, reply, multiset{q}), s');
  }

  function Head(a: Ip, d: Ip, hop: int, kind: Kind, msg: string): Header {
    Header(a, d, hop, 2, kind, 0, msg)
  }

  // ---- The request floods out ----

  /** Path nodes 1..i have a row for `a` back to the node before them, and nothing else is known. */
  ghost predicate Forward(t: Topology, s: State, path: seq<NodeId>, a: Ip, i: int)
    requires forall k :: 0 <= k < |path| ==> path[k] in t.ifs && |t.ifs[path[k]]| > 0
  {
    && (forall k :: 0 <= k < |path| ==> path[k] in s.nodes)
    && (forall k :: 0 <= k < |path| && !(1 <= k <= i) ==> s.nodes[path[k]].table == map[])
    && (forall k :: 1 <= k <= i && k < |path| ==> BackRow(t, s.nodes[path[k]].table, a, path[k - 1]))
  }

  ghost predicate BackRow(t: Topology, table: map<Ip, Row>, a: Ip, prev: NodeId)
    requires prev in t.ifs && |t.ifs[prev]| > 0
  {
    table.Keys == {a} && table[a].nextHop == MacOf(t, prev)
  }

  lemma RelayRequest(ifs: seq<Iface>, node: Node, f: Frame, now: nat, a: Ip, d: Ip)
    requires ifs != [] && !Owns(ifs, a) && !Owns(ifs, d) && a != d && node.table == map[]
    requires f.hdr == Head(a, d, f.hdr.hop, Rreq, "")
    ensures var table := map[a := Row(f.src, f.hdr.hop, now, 2)];
            var out := RreqFrames(ifs, 2, f.hdr.hop + 1, a, d, 0);
            && Process(ifs, node, f, now, 0, "") == (Node(table, node.bid), out)
            && out != [] && out[0] == Frame(BROADCAST, ifs[0].mac, Head(a, d, f.hdr.hop + 1, Rreq, ""))
  {
    assert a in Learned(ifs, node.table, f, now);
  }

  lemma AnswerRequest(ifs: seq<Iface>, node: Node, f: Frame, now: nat, a: Ip, d: Ip)
    requires ifs != [] && !Owns(ifs, a) && Owns(ifs, d) && node.table == map[]
    requires f.hdr == Head(a, d, f.hdr.hop, Rreq, "")
    ensures var table := map[a := Row(f.src, f.hdr.hop, now, 2)];
            var out := RrepFrames(ifs, table, 2, 1, a, d, 0);
            && Process(ifs, node, f, now, 0, "") == (Node(table, node.bid), out)
            && out != [] && out[0] == Frame(f.src, ifs[0].mac, Head(d, a, 1, Rrep, ""))
  {
  }

  lemma ForwardStep(t: Topology, s: State, s': State, path: seq<NodeId>, a: Ip, d: Ip, i: nat, node: Node)
    requires Path(t, path, a, d) && 1 <= i < |path| && Forward(t, s, path, a, i - 1)
    requires s'.nodes == s.nodes[path[i] := node] && BackRow(t, node.table, a, path[i - 1])
    ensures Forward(t, s', path, a, i)
  {
  }

  lemma RequestHop(t: Topology, s: State, w: Till, p: Packet, path: seq<NodeId>, a: Ip, d: Ip, i: nat)
    returns (s': State, q: Packet)
    requires OnPath(t, s, w, p, path, a, d) && 1 <= i < |path| - 1 && Forward(t, s, path, a, i - 1)
    requires p.to == path[i] && p.frame.src == MacOf(t, path[i - 1])
             && p.frame.hdr == Head(a, d, p.frame.hdr.hop, Rreq, "")
    ensures OnPath(t, s', w, q, path, a, d) && Forward(t, s', path, a, i)
    ensures q.to == path[i + 1] && q.frame.src == MacOf(t, path[i])
            && q.frame.hdr == Head(a, d, p.frame.hdr.hop + 1, Rreq, "")
  {
    var m, f := path[i], p.frame;
    var ifs, node := t.ifs[m], s.nodes[m];
    assert !OwnsAt(t, m, a) && !OwnsAt(t, m, d) && OwnsAt(t, path[0], a) && !OwnsAt(t, path[0], d);
    var node' := Node(map[a := Row(f.src, f.hdr.hop, s.clock, 2)], node.bid);
    RelayRequest(ifs, node, f, s.clock, a, d);
    s', q := Hop(t, s, path[0], w, p, "", node', RreqFrames(ifs, 2, f.hdr.hop + 1, a, d, 0), path[i + 1]);
    ForwardStep(t, s, s', path, a, d, i, node');
  }

  lemma RequestAnswered(t: Topology, s: State, w: Till, p: Packet, path: seq<NodeId>, a: Ip, d: Ip, i: nat)
    returns (s': State, q: Packet)
    requires OnPath(t, s, w, p, path, a, d) && i == |path| - 1 && Forward(t, s, path, a, i - 1)
    requires p.to == path[i] && p.frame.src == MacOf(t, path[i - 1])
             && p.frame.hdr == Head(a, d, p.frame.hdr.hop, Rreq, "")
    ensures OnPath(t, s', w, q, path, a, d) && Forward(t, s', path, a, i)
    ensures q.to == path[i - 1] && q.frame.src == MacOf(t, path[i]) && q.frame.hdr == Head(d, a, 1, Rrep, "")
  {
    var m, f := path[i], p.frame;
    var ifs, node := t.ifs[m], s.nodes[m];
    assert !OwnsAt(t, m, a) && OwnsAt(t, m, d);
    var node' := Node(map[a := Row(f.src, f.hdr.hop, s.clock, 2)], node.bid);
    AnswerRequest(ifs, node, f, s.clock, a, d);
    s', q := Hop(t, s, path[0], w, p, "", node', RrepFrames(ifs, node'.table, 2, 1, a, d, 0), path[i - 1]);
    ForwardStep(t, s, s', path, a, d, i, node');
  }

  /** The RREQ travels from node `i` to the owner, who answers. */
  lemma {:induction false} RequestTravels(t: Topology, s: State, w: Till, p: Packet, path: seq<NodeId>, a: Ip, d: Ip,
                                          i: nat)
    returns (s': State, q: Packet)
    requires OnPath(t, s, w, p, path, a, d) && 1 <= i < |path| && Forward(t, s, path, a, i - 1)
    requires p.to == path[i] && p.frame.src == MacOf(t, path[i - 1])
             && p.frame.hdr == Head(a, d, p.frame.hdr.hop, Rreq, "")
    ensures OnPath(t, s', w, q, path, a, d) && Forward(t, s', path, a, |path| - 1)
    ensures q.to == path[|path| - 2] && q.frame.src == MacOf(t, path[|path| - 1])
            && q.frame.hdr == Head(d, a, 1, Rrep, "")
    decreases |path| - i
  {
    if i < |path| - 1 {
      s', q := RequestHop(t, s, w, p, path, a, d, i);
      s', q := RequestTravels(t, s', w, q, path, a, d, i + 1);
    } else {
      s', q := RequestAnswered(t, s, w, p, path, a, d, i);
    }
  }

  // ---- The reply comes back ----

  ghost predicate HasRow(t: Topology, table: map<Ip, Row>, x: Ip, n: NodeId)
    requires n in t.ifs && |t.ifs[n]| > 0
  {
    x in table && table[x].nextHop == MacOf(t, n)
  }

  /** Every path node knows the way back to `a`, and those from `i` on the way to `d`. */
  ghost predicate Known(t: Topology, s: State, path: seq<NodeId>, a: Ip, d: Ip, i: int)
    requires forall k :: 0 <= k < |path| ==> path[k] in t.ifs && |t.ifs[path[k]]| > 0
  {
    && (forall k :: 0 <= k < |path| ==> path[k] in s.nodes)
    && (forall k :: 1 <= k < |path| ==> HasRow(t, s.nodes[path[k]].table, a, path[k - 1]))
    && (forall k :: i <= k < |path| - 1 && 0 <= k ==> HasRow(t, s.nodes[path[k]].table, d, path[k + 1]))
    && (forall k :: 0 <= k < i && k < |path| ==> d !in s.nodes[path[k]].table)
  }

  lemma RelayReply(ifs: seq<Iface>, node: Node, f: Frame, now: nat, a: Ip, d: Ip)
    requires ifs != [] && !Owns(ifs, a) && !Owns(ifs, d) && a in node.table && d !in node.table
    requires f.hdr == Head(d, a, f.hdr.hop, Rrep, "")
    ensures var table := node.table[d := Row(f.src, f.hdr.hop, now, 2)];
            var out := RrepFrames(ifs, table, 2, f.hdr.hop + 1, a, d, 0);
            && Process(ifs, node, f, now, 0, "") == (Node(table, node.bid), out)
            && out != [] && out[0] == Frame(table[a].nextHop, ifs[0].mac, Head(d, a, f.hdr.hop + 1, Rrep, ""))
  {
  }

  ghost predicate Message(h: Header, src: Ip, dest: Ip, kind: Kind, msg: string) {
    h.src == src && h.dest == dest && h.kind == kind && h.msg == msg
  }

  lemma ReplyArrives(ifs: seq<Iface>, node: Node, f: Frame, now: nat, a: Ip, d: Ip)
    requires ifs != [] && Owns(ifs, a) && !Owns(ifs, d) && d !in node.table
    requires f.hdr == Head(d, a, f.hdr.hop, Rrep, "")
    ensures var node' := node.(table := node.table[d := Row(f.src, f.hdr.hop, now, 2)]);
            var out := PayloadFrames(ifs, node', a, d, PayloadReq, " ", 0);
            && Process(ifs, node, f, now, 0, "") == (node', out)
            && out != [] && out[0].dst == f.src && out[0].src == ifs[0].mac
                && Message(out[0].hdr, a, d, PayloadReq, " ")
  {
  }

  lemma ForwardKnown(t: Topology, s: State, path: seq<NodeId>, a: Ip, d: Ip)
    requires Path(t, path, a, d) && Forward(t, s, path, a, |path| - 1)
    ensures Known(t, s, path, a, d, |path| - 1)
  {
    assert OwnsAt(t, path[0], a) && !OwnsAt(t, path[0], d);
    forall k | 0 <= k < |path| - 1 ensures d !in s.nodes[path[k]].table {
      if k >= 1 { assert BackRow(t, s.nodes[path[k]].table, a, path[k - 1]); }
    }
  }

  lemma KnownStep(t: Topology, s: State, s': State, path: seq<NodeId>, a: Ip, d: Ip, i: nat, node: Node)
    requires Path(t, path, a, d) && i < |path| - 1 && Known(t, s, path, a, d, i + 1) && a != d
    requires s'.nodes == s.nodes[path[i] := node] && HasRow(t, node.table, d, path[i + 1])
    requires node.table - {d} == s.nodes[path[i]].table - {d}
    ensures Known(t, s', path, a, d, i)
  {
    forall k | 1 <= k < |path| ensures HasRow(t, s'.nodes[path[k]].table, a, path[k - 1]) {
      assert HasRow(t, s.nodes[path[k]].table, a, path[k - 1]);
      if k == i { assert a in node.table - {d} && (node.table - {d})[a] == node.table[a]; }
    }
  }

  lemma ReplyHop(t: Topology, s: State, w: Till, p: Packet, path: seq<NodeId>, a: Ip, d: Ip, i: nat)
    returns (s': State, q: Packet)
    requires OnPath(t, s, w, p, path, a, d) && 0 < i < |path| - 1 && Known(t, s, path, a, d, i + 1)
    requires p.to == path[i] && p.frame.src == MacOf(t, path[i + 1])
             && p.frame.hdr == Head(d, a, p.frame.hdr.hop, Rrep, "")
    ensures OnPath(t, s', w, q, path, a, d) && Known(t, s', path, a, d, i)
    ensures q.to == path[i - 1] && q.frame.src == MacOf(t, path[i])
            && q.frame.hdr == Head(d, a, p.frame.hdr.hop + 1, Rrep, "")
  {
    var m, f := path[i], p.frame;
    var ifs, node := t.ifs[m], s.nodes[m];
    assert !OwnsAt(t, m, a) && !OwnsAt(t, m, d) && OwnsAt(t, path[0], a) && !OwnsAt(t, path[0], d);
    assert HasRow(t, node.table, a, path[i - 1]);
    var node' := Node(node.table[d := Row(f.src, f.hdr.hop, s.clock, 2)], node.bid);
    RelayReply(ifs, node, f, s.clock, a, d);
    s', q := Hop(t, s, path[0], w, p, "", node', RrepFrames(ifs, node'.table, 2, f.hdr.hop + 1, a, d, 0), path[i - 1]);
    KnownStep(t, s, s', path, a, d, i, node');
  }

  lemma ReplyDone(t: Topology, s: State, w: Till, p: Packet, path: seq<NodeId>, a: Ip, d: Ip, i: nat)
    returns (s': State, q: Packet)
    requires OnPath(t, s, w, p, path, a, d) && i == 0 && Known(t, s, path, a, d, i + 1)
    requires p.to == path[i] && p.frame.src == MacOf(t, path[i + 1])
             && p.frame.hdr == Head(d, a, p.frame.hdr.hop, Rrep, "")
    ensures OnPath(t, s', w, q, path, a, d) && Known(t, s', path, a, d, i)
    ensures q.to == path[i + 1] && Message(q.frame.hdr, a, d, PayloadReq, " ")
  {
    var m, f := path[i], p.frame;
    var ifs, node := t.ifs[m], s.nodes[m];
    assert OwnsAt(t, m, a) && !OwnsAt(t, m, d);
    var node' := Node(node.table[d := Row(f.src, f.hdr.hop, s.clock, 2)], node.bid);
    ReplyArrives(ifs, node, f, s.clock, a, d);
    s', q := Hop(t, s, path[0], w, p, "", node', PayloadFrames(ifs, node', a, d, PayloadReq, " ", 0), path[i + 1]);
    KnownStep(t, s, s', path, a, d, i, node');
  }

  /** The RREP travels from node `i` to the requester, who sends the payload. */
  lemma {:induction false} ReplyTravels(t: Topology, s: State, w: Till, p: Packet, path: seq<NodeId>, a: Ip, d: Ip,
                                        i: nat)
    returns (s': State, q: Packet)
    requires OnPath(t, s, w, p, path, a, d) && i < |path| - 1 && Known(t, s, path, a, d, i + 1)
    requires p.to == path[i] && p.frame.src == MacOf(t, path[i + 1])
             && p.frame.hdr == Head(d, a, p.frame.hdr.hop, Rrep, "")
    ensures OnPath(t, s', w, q, path, a, d) && Known(t, s', path, a, d, 0)
    ensures q.to == path[1] && Message(q.frame.hdr, a, d, PayloadReq, " ")
    decreases i
  {
    if i > 0 {
      s', q := ReplyHop(t, s, w, p, path, a, d, i);
      s', q := ReplyTravels(t, s', w, q, path, a, d, i - 1);
    } else {
      s', q := ReplyDone(t, s, w, p, path, a, d, i);
    }
  }

  // ---- The payload and its answer ----

  lemma RelayPayload(ifs: seq<Iface>, node: Node, f: Frame, now: nat, reply: string)
    requires ifs != [] && !Owns(ifs, f.hdr.dest) && f.hdr.dest in node.table
    requires f.hdr.kind == PayloadReq || f.hdr.kind == PayloadResp
    ensures var out := PayloadFrames(ifs, node, f.hdr.src, f.hdr.dest, f.hdr.kind, f.hdr.msg, 0);
            && Process(ifs, node, f, now, 0, reply) == (node, out)
            && out != [] && out[0].dst == node.table[f.hdr.dest].nextHop
            && Message(out[0].hdr, f.hdr.src, f.hdr.dest, f.hdr.kind, f.hdr.msg)
  {
  }

  lemma AnswerPayload(ifs: seq<Iface>, node: Node, f: Frame, now: nat, reply: string)
    requires ifs != [] && Owns(ifs, f.hdr.dest) && f.hdr.src in node.table && f.hdr.kind == PayloadReq
    ensures var out := PayloadFrames(ifs, node, f.hdr.dest, f.hdr.src, PayloadResp, reply, 0);
            && Process(ifs, node, f, now, 0, reply) == (node, out)
            && out != [] && out[0].dst == node.table[f.hdr.src].nextHop
            && Message(out[0].hdr, f.hdr.dest, f.hdr.src, PayloadResp, reply)
  {
  }

  /** The payload travels from node `i` to the owner, whose time server answers `reply`. */
  lemma {:induction false} PayloadTravels(t: Topology, s: State, w: Till, p: Packet, path: seq<NodeId>, a: Ip, d: Ip,
                                          i: nat, reply: string)
    returns (s': State, q: Packet)
    requires OnPath(t, s, w, p, path, a, d) && 1 <= i < |path| && Known(t, s, path, a, d, 0)
    requires p.to == path[i] && Message(p.frame.hdr, a, d, PayloadReq, " ")
    ensures OnPath(t, s', w, q, path, a, d) && Known(t, s', path, a, d, 0)
    ensures q.to == path[|path| - 2] && Message(q.frame.hdr, d, a, PayloadResp, reply)
    decreases |path| - i
  {
    var m, f := path[i], p.frame;
    var ifs, node := t.ifs[m], s.nodes[m];
    if i < |path| - 1 {
      assert !OwnsAt(t, m, d) && HasRow(t, node.table, d, path[i + 1]);
      RelayPayload(ifs, node, f, s.clock, reply);
      s', q := Hop(t, s, path[0], w, p, reply, node, PayloadFrames(ifs, node, a, d, PayloadReq, " ", 0), path[i + 1]);
      assert s'.nodes == s.nodes;
      s', q := PayloadTravels(t, s', w, q, path, a, d, i + 1, reply);
    } else {
      assert OwnsAt(t, m, d) && HasRow(t, node.table, a, path[i - 1]);
      AnswerPayload(ifs, node, f, s.clock, reply);
      var out := PayloadFrames(ifs, node, d, a, PayloadResp, reply, 0);
      s', q := Hop(t, s, path[0], w, p, reply, node, out, path[i - 1]);
      assert s'.nodes == s.nodes;
    }
  }

  /** The answer travels back to the requester. */
  lemma {:induction false} AnswerTravels(t: Topology, s: State, w: Till, p: Packet, path: seq<NodeId>, a: Ip, d: Ip,
                                         i: nat, reply: string)
    returns (s': State, q: Packet)
    requires OnPath(t, s, w, p, path, a, d) && i < |path| - 1 && Known(t, s, path, a, d, 0)
    requires p.to == path[i] && Message(p.frame.hdr, d, a, PayloadResp, reply)
    ensures OnPath(t, s', w, q, path, a, d) && Known(t, s', path, a, d, 0)
    ensures q.to == path[0] && Message(q.frame.hdr, d, a, PayloadResp, reply)
    decreases i
  {
    if i == 0 {
      s', q := s, p;
    } else {
      var m, f := path[i], p.frame;
      var ifs, node := t.ifs[m], s.nodes[m];
      assert !OwnsAt(t, m, a) && HasRow(t, node.table, a, path[i - 1]);
      RelayPayload(ifs, node, f, s.clock, reply);
      var out := PayloadFrames(ifs, node, d, a, PayloadResp, reply, 0);
      s', q := Hop(t, s, path[0], w, p, reply, node, out, path[i - 1]);
      assert s'.nodes == s.nodes;
      s', q := AnswerTravels(t, s', w, q, path, a, d, i - 1, reply);
    }
  }

  // ---- From the client's request to its answer ----

  lemma {:induction false} FloodOpens(ifs: seq<Iface>, k: nat, bcid: int, dest: Ip)
    requires 1 <= k <= |ifs|
    ensures var out := FloodFrames(ifs, k, bcid, dest, 0);
            out != [] && out[0] == Frame(BROADCAST, ifs[0].mac, Header(ifs[0].ip, dest, 1, bcid, Rreq, 0, ""))
  {
    if k > 1 { FloodOpens(ifs, k - 1, bcid, dest); } else { assert FloodFrames(ifs, 0, bcid, dest, 0) == []; }
  }

  lemma {:induction false} RequestOpens(ifs: seq<Iface>, k: nat, node: Node, dest: Ip)
    requires 1 <= k <= |ifs| && dest !in node.table
    ensures var out := RequestFrames(ifs, k, node, dest, 0);
            out != [] && out[0] == Frame(BROADCAST, ifs[0].mac, Header(ifs[0].ip, dest, 1, node.bid, Rreq, 0, ""))
  {
    if k > 1 {
      RequestOpens(ifs, k - 1, node, dest);
    } else {
      assert RequestFrames(ifs, 0, node, dest, 0) == [];
      FloodOpens(ifs, |ifs|, node.bid, dest);
    }
  }

  /** The buffer with only this client in it. */
  function Waiting(c: Client): Till {
    Opening().(slots := PushSlot(BlankBuffer(), c))
  }

  lemma ClientAsks(t: Topology, path: seq<NodeId>, a: Ip, c: Client) returns (s: State, p: Packet)
    requires Path(t, path, a, c.dest)
    ensures OnPath(t, s, Waiting(c), p, path, a, c.dest) && Forward(t, s, path, a, 0)
    ensures p.to == path[1] && p.frame.src == MacOf(t, path[0]) && p.frame.hdr == Head(a, c.dest, 1, Rreq, "")
  {
    var start := State(map n | n in t.ifs :: Node(map[], 1), multiset{}, 0);
    var n, node, d := path[0], Node(map[], 2), c.dest;
    StartReached(t, start, n);
    RequestOpens(t.ifs[n], |t.ifs[n]|, node, d);
    p := Packet(path[1], RequestFrames(t.ifs[n], |t.ifs[n]|, node, d, 0)[0], []);
    s := State(start.nodes[n := node], start.net + multiset{p}, 1);
    var e := Ask(n, d, c.port, multiset{p});
    assert Next(t, start, e, s);
    Extend(t, start, n, Opening(), e, s);
    assert TillStep(t, n, Opening(), e) == Waiting(c);
  }

  /** The only waiting client gets the answer and leaves. */
  lemma OnlyClientServed(ifs: seq<Iface>, c: Client, h: Header)
    requires h.kind == PayloadResp && Owns(ifs, h.dest) && h.src == c.dest
    ensures var w := HandAnswer(ifs, Waiting(c), h);
            Pending(w.slots) == multiset{} && w.handed == [Handed(c, h.msg)]
  {
    BlankIsEmpty();
    PushAdds(BlankBuffer(), c);
    var slots := PushSlot(BlankBuffer(), c);
    ServeRemoves(slots, h.src);
    assert Pending(slots) == multiset{c};
    assert c in Pending(slots);
    var (slots', client) := ServeSlot(slots, h.src);
    OneLeft(Pending(slots'), client.value, c);
  }

  lemma OneLeft<T>(m: multiset<T>, x: T, c: T)
    requires m + multiset{x} == multiset{c}
    ensures m == multiset{} && x == c
  {
    assert x in m + multiset{x};
    assert |m + multiset{x}| == |m| + 1;
  }

  /** The answer is delivered, and the waiting client gets it. */
  lemma AnswerHandedOver(t: Topology, s: State, p: Packet, path: seq<NodeId>, a: Ip, c: Client, reply: string)
    returns (s': State, w: Till)
    requires OnPath(t, s, Waiting(c), p, path, a, c.dest)
    requires p.to == path[0] && path[0] in s.nodes && Message(p.frame.hdr, c.dest, a, PayloadResp, reply)
    ensures Reaches(t, s', path[0], w) && s'.net == multiset{}
    ensures Pending(w.slots) == multiset{} && w.handed == [Handed(c, reply)]
  {
    var n := path[0];
    var none: multiset<Packet> := multiset{};
    assert OwnsAt(t, n, a);
    var (node, out) := Process(t.ifs[n], s.nodes[n], p.frame, s.clock, 0, "");
    var e := Deliver(p, 0, "", none);
    s' := State(s.nodes[n := node], s.net - multiset{p} + none, s.clock + 1);
    assert Next(t, s, e, s');
    Extend(t, s, n, Waiting(c), e, s');
    OnlyClientServed(t.ifs[n], c, p.frame.hdr);
    w := TillStep(t, n, Waiting(c), e);
  }

  /** Along every path from a requester to an owner of the wanted address, some run
      ends with the requesting client, the only one, holding the owner's answer, its
      slot free again, and nothing left in flight. */
  lemma DiscoveryCompletes(t: Topology, path: seq<NodeId>, a: Ip, c: Client, reply: string) returns (s: State, w: Till)
    requires Path(t, path, a, c.dest)
    ensures Reaches(t, s, path[0], w) && s.net == multiset{}
    ensures Pending(w.slots) == multiset{} && w.handed == [Handed(c, reply)]
  {
    w := Waiting(c);
    var p: Packet;
    var d := c.dest;
    s, p := ClientAsks(t, path, a, c);
    s, p := RequestTravels(t, s, w, p, path, a, d, 1);
    ForwardKnown(t, s, path, a, d);
    s, p := ReplyTravels(t, s, w, p, path, a, d, |path| - 2);
    s, p := PayloadTravels(t, s, w, p, path, a, d, 1, reply);
    s, p := AnswerTravels(t, s, w, p, path, a, d, |path| - 2, reply);
    s, w := AnswerHandedOver(t, s, p, path, a, c, reply);
  }
}
