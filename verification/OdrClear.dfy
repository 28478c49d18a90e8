/** Why loop freedom is stated for clear-free runs: what `init_routing_table` on a
live node does (hw3/odr.c, stale timer and force flag), and exactly when a run with
clears stays loop-free. */
module OdrClear {
  import opened RoutingTable
  import opened OdrNode
  import opened OdrNetwork
  import opened OdrRoutes

  /** The stale-timer step of `main`: node `n` forgets every row. */
  ghost predicate ClearStep(s: State, n: NodeId, s': State) {
    n in s.nodes && s' == State(s.nodes[n := s.nodes[n].(table := map[])], s.net, s.clock + 1)
  }

  /** The steps of the network, the stale timer, and a client request with the force flag. */
  datatype Step =
    | Plain(e: Event)
    | Stale(n: NodeId)
    | Forced(n: NodeId, dest: Ip, air: multiset<Packet>)

  ghost predicate NextStep(t: Topology, s: State, x: Step, s': State) {
    match x
    case Plain(e) => Next(t, s, e, s')
    case Stale(n) => ClearStep(s, n, s')
    case Forced(n, dest, air) =>
      && n in s.nodes && n in t.ifs && dest != ""
      && var (node, out) := Request(t.ifs[n], s.nodes[n], dest, 1);
         && Carried(t, n, node.table, Rreq, [], out, air)
         && s' == State(s.nodes[n := node], s.net + air, s.clock + 1)
  }

  ghost predicate IsClearingRun(t: Topology, run: seq<State>, steps: seq<Step>) {
    && |run| == |steps| + 1 && Initial(t, run[0])
    && forall i :: 0 <= i < |steps| ==> NextStep(t, run[i], steps[i], run[i + 1])
  }

  ghost predicate Steps(t: Topology, s: State, s': State) {
    exists e :: Next(t, s, e, s')
  }

  // ---- One clear can close a loop ----

  const LINE: Topology :=
    Topology(map[0 := [Iface("A", 1)], 1 := [Iface("B", 2)], 2 := [Iface("C", 3)]], map[1 := 0, 2 := 1, 3 := 2])

  function RreqVia(mac: Mac, hop: int): Frame {
    Frame(BROADCAST, mac, Header("A", "D", hop, 2, Rreq, 0, ""))
  }

  function Tables(one: map<Ip, Row>, two: map<Ip, Row>): map<NodeId, Node> {
    map[0 := Node(map[], 2), 1 := Node(one, 1), 2 := Node(two, 1)]
  }

  /** Relaying node `n` of the line learns A from `from` and floods the RREQ on. */
  lemma Relay(s: State, n: NodeId, from: Mac, hop: int, to: NodeId) returns (s': State)
    requires n in {1, 2} && to in {0, 1, 2} && s.nodes.Keys == {0, 1, 2}
    requires s.nodes[n] == Node(map[], 1)
    requires s.net == multiset{Packet(n, RreqVia(from, hop), [])}
    ensures s' == State(s.nodes[n := Node(map["A" := Row(from, hop, s.clock, 2)], 1)],
                        multiset{Packet(to, RreqVia(n + 1, hop + 1), [])}, s.clock + 1)
    ensures Steps(LINE, s, s')
  {
    var ifs, f := LINE.ifs[n], RreqVia(from, hop);
    assert |ifs| == 1 && ifs[0].mac == n + 1;
    var (node, out) := Process(ifs, s.nodes[n], f, s.clock, 0, "");
    assert node == Node(map["A" := Row(from, hop, s.clock, 2)], 1);
    assert out == [RreqVia(n + 1, hop + 1)];
    var p, q := Packet(n, f, []), Packet(to, RreqVia(n + 1, hop + 1), []);
    s' := State(s.nodes[n := node], s.net - multiset{p} + multiset{q}, s.clock + 1);
    assert out[0] == q.frame;
    assert Next(LINE, s, Deliver(p, 0, "", multiset{q}), s');
  }

  const START: State := State(map[0 := Node(map[], 1), 1 := Node(map[], 1), 2 := Node(map[], 1)], multiset{}, 0)

  /** Node 0's client asks for an address nobody owns; node 1 hears the RREQ. */
  lemma FirstRequest() returns (s: State)
    ensures s == State(Tables(map[], map[]), multiset{Packet(1, RreqVia(1, 1), [])}, 1)
    ensures Steps(LINE, START, s)
  {
    var q, ifs, node := Packet(1, RreqVia(1, 1), []), LINE.ifs[0], Node(map[], 2);
    assert |ifs| == 1;
    assert FloodFrames(ifs, 0, 2, "D", 0) == [] && RequestFrames(ifs, 0, node, "D", 0) == [];
    assert FloodFrames(ifs, 1, 2, "D", 0) == [RreqVia(1, 1)];
    assert RequestFrames(ifs, 1, node, "D", 0) == [RreqVia(1, 1)];
    assert [RreqVia(1, 1)][0] == q.frame;
    s := State(START.nodes[0 := node], START.net + multiset{q}, 1);
    assert Next(LINE, START, Ask(0, "D", "", multiset{q}), s);
  }

  /** The line's states around a single clear of node 1. */
  lemma FiveStates() returns (s1: State, s2: State, s3: State, s4: State, s5: State)
    ensures Steps(LINE, START, s1)
    ensures Steps(LINE, s1, s2)
    ensures Steps(LINE, s2, s3)
    ensures ClearStep(s3, 1, s4)
    ensures Steps(LINE, s4, s5)
    ensures HopsAlong(LINE, s5, "A", [1, 2, 1]) && !Distinct([1, 2, 1])
  {
    s1 := FirstRequest();
    s2 := Relay(s1, 1, 1, 1, 2);
    s3 := Relay(s2, 2, 2, 2, 1);
    s4 := State(s3.nodes[1 := s3.nodes[1].(table := map[])], s3.net, s3.clock + 1);
    s5 := Relay(s4, 1, 3, 3, 0);
    TwoNodeLoop(s5);
  }

  /** How many steps are not the network's own. */
  function Clears(steps: seq<Step>): nat {
    if steps == [] then 0 else Clears(steps[..|steps| - 1]) + if steps[|steps| - 1].Plain? then 0 else 1
  }

  /** Some run with this many clears ends here. */
  ghost predicate Reached(t: Topology, s: State, clears: nat) {
    exists run, steps :: IsClearingRun(t, run, steps) && run[|steps|] == s && Clears(steps) == clears
  }

  lemma Append(t: Topology, s: State, clears: nat, x: Step, s': State)
    requires Reached(t, s, clears) && NextStep(t, s, x, s')
    ensures Reached(t, s', clears + if x.Plain? then 0 else 1)
  {
    var run, steps :| IsClearingRun(t, run, steps) && run[|steps|] == s && Clears(steps) == clears;
    var run', steps' := run + [s'], steps + [x];
    forall i | 0 <= i < |steps'| ensures NextStep(t, run'[i], steps'[i], run'[i + 1]) {
      if i < |steps| { assert NextStep(t, run[i], steps[i], run[i + 1]); }
    }
    assert steps'[..|steps|] == steps;
    assert IsClearingRun(t, run', steps') && run'[|steps'|] == s';
  }

  lemma AppendPlain(t: Topology, s: State, clears: nat, s': State)
    requires Reached(t, s, clears) && Steps(t, s, s')
    ensures Reached(t, s', clears)
  {
    var e :| Next(t, s, e, s');
    Append(t, s, clears, Plain(e), s');
  }

  lemma StartsReached(t: Topology, s: State)
    requires Initial(t, s)
    ensures Reached(t, s, 0)
  {
    var none: seq<Step> := [];
    assert IsClearingRun(t, [s], none) && [s][|none|] == s && Clears(none) == 0;
  }

  lemma FiveSteps(t: Topology, s0: State, s1: State, s2: State, s3: State, n: NodeId, s4: State, s5: State)
    requires Initial(t, s0) && Steps(t, s0, s1) && Steps(t, s1, s2) && Steps(t, s2, s3)
    requires ClearStep(s3, n, s4) && Steps(t, s4, s5)
    ensures Reached(t, s5, 1)
  {
    StartsReached(t, s0);
    AppendPlain(t, s0, 0, s1);
    AppendPlain(t, s1, 0, s2);
    AppendPlain(t, s2, 0, s3);
    Append(t, s3, 0, Stale(n), s4);
    AppendPlain(t, s4, 1, s5);
  }

  /** A run with a single clear that ends with nodes 1 and 2 routing to each other. */
  lemma ClearCanLoop() returns (s: State)
    ensures Configured(LINE) && Reached(LINE, s, 1)
    ensures HopsAlong(LINE, s, "A", [1, 2, 1]) && !Distinct([1, 2, 1])
  {
    LineConfigured();
    var s1, s2, s3, s4, s5 := FiveStates();
    FiveSteps(LINE, START, s1, s2, s3, 1, s4, s5);
    s := s5;
  }

  lemma LineConfigured()
    ensures Configured(LINE) && Initial(LINE, START)
  {
  }

  lemma TwoNodeLoop(s: State)
    requires 1 in s.nodes && "A" in s.nodes[1].table && s.nodes[1].table["A"].nextHop == 3
    requires 2 in s.nodes && "A" in s.nodes[2].table && s.nodes[2].table["A"].nextHop == 2
    ensures HopsAlong(LINE, s, "A", [1, 2, 1]) && !Distinct([1, 2, 1])
  {
    assert [1, 2, 1][0] == [1, 2, 1][2];
  }

  // ---- Exactly when relearning closes a loop ----

  ghost predicate LoopFree(t: Topology, s: State, a: Ip) {
    forall path :: HopsAlong(t, s, a, path) ==> Distinct(path)
  }

  /** Next hops for `a` lead from `m` to `n`. */
  ghost predicate Leads(t: Topology, s: State, a: Ip, m: NodeId, n: NodeId) {
    exists path :: |path| > 0 && path[0] == m && path[|path| - 1] == n && HopsAlong(t, s, a, path)
  }

  /** `s'` is `s` after node `n`, without a row for `a`, learned one from node `m`. */
  ghost predicate Relearns(t: Topology, s: State, s': State, n: NodeId, m: NodeId, a: Ip) {
    && s.nodes.Keys == s'.nodes.Keys && n in s.nodes
    && a !in s.nodes[n].table && HopsTo(t, s', a, n, m)
    && forall o :: o in s.nodes && o != n ==> s'.nodes[o] == s.nodes[o]
  }

  /** A path that leaves `n` nowhere is the same before and after. */
  lemma SameAway(t: Topology, s: State, s': State, n: NodeId, m: NodeId, a: Ip, path: seq<NodeId>)
    requires Relearns(t, s, s', n, m, a)
    requires forall i :: 0 <= i < |path| - 1 ==> path[i] != n
    requires HopsAlong(t, s', a, path)
    ensures HopsAlong(t, s, a, path)
  {
    forall i | 0 <= i < |path| - 1 ensures HopsTo(t, s, a, path[i], path[i + 1]) {
      assert HopsTo(t, s', a, path[i], path[i + 1]);
    }
  }

  lemma Slice(t: Topology, s: State, a: Ip, path: seq<NodeId>, i: nat, j: nat)
    requires HopsAlong(t, s, a, path) && i <= j <= |path|
    ensures HopsAlong(t, s, a, path[i..j])
  {
    forall k | 0 <= k < |path[i..j]| - 1 ensures HopsTo(t, s, a, path[i..j][k], path[i..j][k + 1]) {
      assert HopsTo(t, s, a, path[i + k], path[i + k + 1]);
    }
  }

  lemma Splice(t: Topology, s: State, a: Ip, p: seq<NodeId>, q: seq<NodeId>)
    requires HopsAlong(t, s, a, p) && HopsAlong(t, s, a, q)
    requires p != [] && q != [] && p[|p| - 1] == q[0]
    ensures HopsAlong(t, s, a, p + q[1..])
  {
    var r := p + q[1..];
    forall k | 0 <= k < |r| - 1 ensures HopsTo(t, s, a, r[k], r[k + 1]) {
      if k < |p| - 1 { assert HopsTo(t, s, a, p[k], p[k + 1]); }
      else { assert HopsTo(t, s, a, q[k - |p| + 1], q[k - |p| + 2]); }
    }
  }

  lemma {:induction false} LastVisit(path: seq<NodeId>, n: NodeId, i: nat, j: nat) returns (k: nat)
    requires i < j <= |path| && exists l :: i <= l < j && path[l] == n
    ensures i <= k < j && path[k] == n && forall l :: k < l < j ==> path[l] != n
    decreases j
  {
    if path[j - 1] == n { k := j - 1; } else { k := LastVisit(path, n, i, j - 1); }
  }

  lemma {:induction false} FirstVisit(path: seq<NodeId>, n: NodeId, i: nat, j: nat) returns (k: nat)
    requires i < j <= |path| && exists l :: i <= l < j && path[l] == n
    ensures i <= k < j && path[k] == n && forall l :: i <= l < k ==> path[l] != n
    decreases j - i
  {
    if path[i] == n { k := i; } else { k := FirstVisit(path, n, i + 1, j); }
  }

  lemma EndsDiffer(t: Topology, s: State, a: Ip, path: seq<NodeId>)
    requires LoopFree(t, s, a) && HopsAlong(t, s, a, path) && |path| > 1
    ensures path[0] != path[|path| - 1]
  {
    assert Distinct(path);
  }

  /** A cycle after relearning passes `n`. */
  lemma CycleVisits(t: Topology, s: State, s': State, n: NodeId, m: NodeId, a: Ip, path: seq<NodeId>, i: nat, j: nat)
    requires Relearns(t, s, s', n, m, a) && LoopFree(t, s, a)
    requires HopsAlong(t, s', a, path) && i < j < |path| && path[i] == path[j]
    ensures exists l :: i <= l < j && path[l] == n
  {
    if forall l :: i <= l < j ==> path[l] != n {
      StretchBefore(t, s, s', n, m, a, path, i, j + 1);
      EndsDiffer(t, s, a, path[i..j + 1]);
    }
  }

  /** From `m` on it runs back to `n` over hops that were there before. */
  lemma CycleLeadsBack(t: Topology, s: State, s': State, n: NodeId, m: NodeId, a: Ip, path: seq<NodeId>, i: nat, j: nat)
    requires Relearns(t, s, s', n, m, a) && LoopFree(t, s, a)
    requires HopsAlong(t, s', a, path) && i < j < |path| && path[i] == path[j]
    ensures Leads(t, s, a, m, n)
  {
    CycleVisits(t, s, s', n, m, a, path, i, j);
    var last := LastVisit(path, n, i, j);
    var tail := path[last + 1..j + 1];
    StretchBefore(t, s, s', n, m, a, path, last + 1, j + 1);
    assert HopsTo(t, s', a, path[last], path[last + 1]);
    assert tail[0] == m && tail[|tail| - 1] == path[j];
    if path[j] != n {
      var first := FirstVisit(path, n, i, j);
      var head := path[i..first + 1];
      StretchBefore(t, s, s', n, m, a, path, i, first + 1);
      assert head[0] == path[i] && head[|head| - 1] == n;
      JoinLeads(t, s, a, tail, head);
    }
  }

  /** A stretch of the path that leaves `n` nowhere was there before. */
  lemma StretchBefore(t: Topology, s: State, s': State, n: NodeId, m: NodeId, a: Ip, path: seq<NodeId>, i: nat, j: nat)
    requires Relearns(t, s, s', n, m, a) && HopsAlong(t, s', a, path)
    requires i < j <= |path| && forall l :: i <= l < j - 1 ==> path[l] != n
    ensures HopsAlong(t, s, a, path[i..j])
  {
    Slice(t, s', a, path, i, j);
    SameAway(t, s, s', n, m, a, path[i..j]);
  }

  lemma JoinLeads(t: Topology, s: State, a: Ip, p: seq<NodeId>, q: seq<NodeId>)
    requires HopsAlong(t, s, a, p) && HopsAlong(t, s, a, q)
    requires p != [] && q != [] && p[|p| - 1] == q[0]
    ensures Leads(t, s, a, p[0], q[|q| - 1])
  {
    Splice(t, s, a, p, q);
    var r := p + q[1..];
    assert r[0] == p[0] && r[|r| - 1] == q[|q| - 1];
  }

  /** After a clear, learning `a` again from `m` keeps next hops loop-free exactly
      when `m`'s own route to `a` does not lead through the cleared node. */
  lemma RelearnLoopFreeIff(t: Topology, s: State, s': State, n: NodeId, m: NodeId, a: Ip)
    requires Relearns(t, s, s', n, m, a) && LoopFree(t, s, a)
    ensures LoopFree(t, s', a) <==> !Leads(t, s, a, m, n)
  {
    if Leads(t, s, a, m, n) {
      var path :| |path| > 0 && path[0] == m && path[|path| - 1] == n && HopsAlong(t, s, a, path);
      forall i | 0 <= i < |path| - 1 ensures HopsTo(t, s', a, path[i], path[i + 1]) {
        assert HopsTo(t, s, a, path[i], path[i + 1]);
      }
      assert HopsAlong(t, s', a, [n, m]);
      Splice(t, s', a, [n, m], path);
      var cycle := [n, m] + path[1..];
      assert cycle[0] == cycle[|cycle| - 1];
    } else {
      forall path | HopsAlong(t, s', a, path) ensures Distinct(path) {
        forall i, j | 0 <= i < j < |path| ensures path[i] != path[j] {
          if path[i] == path[j] { CycleLeadsBack(t, s, s', n, m, a, path, i, j); }
        }
      }
    }
  }

  // ---- Runs with clears ----

  ghost predicate AllLoopFree(t: Topology, s: State) {
    forall a :: LoopFree(t, s, a)
  }

  /** Every frame in flight was sent from some node's interface. */
  ghost predicate SendersKnown(t: Topology, s: State) {
    forall p :: p in s.net ==> p.frame.src in t.owner
  }

  /** The step delivers a control frame that makes its receiver create a row, and the
      sender's own route already leads to the receiver. */
  ghost predicate ClosesLoop(t: Topology, s: State, x: Step) {
    && x.Plain? && x.e.Deliver?
    && var n, f := x.e.p.to, x.e.p.frame;
       && n in s.nodes && n in t.ifs && f.src in t.owner
       && IsControl(f.hdr) && !Owns(t.ifs[n], f.hdr.src) && f.hdr.src !in s.nodes[n].table
       && Leads(t, s, f.hdr.src, t.owner[f.src], n)
  }

  /** Rows that were there before, or fewer, with the same next hops. */
  lemma NoNewHops(t: Topology, s: State, s': State, a: Ip)
    requires LoopFree(t, s, a)
    requires forall n, m :: HopsTo(t, s', a, n, m) ==> HopsTo(t, s, a, n, m)
    ensures LoopFree(t, s', a)
  {
    forall path | HopsAlong(t, s', a, path) ensures Distinct(path) {
      forall i | 0 <= i < |path| - 1 ensures HopsTo(t, s, a, path[i], path[i + 1]) {
        assert HopsTo(t, s', a, path[i], path[i + 1]);
      }
    }
  }

  lemma ForgettingKeepsLoopFree(t: Topology, s: State, x: Step, s': State)
    requires NextStep(t, s, x, s') && AllLoopFree(t, s) && !(x.Plain? && x.e.Deliver?)
    ensures AllLoopFree(t, s')
  {
    forall a ensures LoopFree(t, s', a) { NoNewHops(t, s, s', a); }
  }

  /** A delivery that creates no row, for the addresses it is not about. */
  lemma OtherAddresses(t: Topology, s: State, e: Event, s': State, a: Ip)
    requires Next(t, s, e, s') && e.Deliver? && LoopFree(t, s, a)
    requires a in s.nodes[e.p.to].table || a !in s'.nodes[e.p.to].table
    ensures LoopFree(t, s', a)
  {
    NextExtends(t, s, e, s');
    NoNewHops(t, s, s', a);
  }

  lemma CreatesRow(t: Topology, s: State, e: Event, s': State, a: Ip)
    requires Next(t, s, e, s') && e.Deliver? && e.p.frame.src in t.owner
    ensures var n, f := e.p.to, e.p.frame;
            a !in s.nodes[n].table && a in s'.nodes[n].table <==>
            a == f.hdr.src && IsControl(f.hdr) && !Owns(t.ifs[n], a) && a !in s.nodes[n].table
    ensures a !in s.nodes[e.p.to].table && a in s'.nodes[e.p.to].table ==>
              Relearns(t, s, s', e.p.to, t.owner[e.p.frame.src], a)
  {
  }

  /** From a loop-free state, every step of the daemons, clears included, leads to a
      loop-free state exactly when it does not close a loop in this one way. */
  lemma StepLoopFreeIff(t: Topology, s: State, x: Step, s': State)
    requires NextStep(t, s, x, s') && AllLoopFree(t, s) && SendersKnown(t, s)
    ensures AllLoopFree(t, s') <==> !ClosesLoop(t, s, x)
  {
    if x.Plain? && x.e.Deliver? {
      var e, n, src := x.e, x.e.p.to, x.e.p.frame.hdr.src;
      forall a | a != src ensures LoopFree(t, s', a) {
        CreatesRow(t, s, e, s', a);
        OtherAddresses(t, s, e, s', a);
      }
      CreatesRow(t, s, e, s', src);
      if src !in s.nodes[n].table && src in s'.nodes[n].table {
        RelearnLoopFreeIff(t, s, s', n, t.owner[e.p.frame.src], src);
      } else {
        OtherAddresses(t, s, e, s', src);
      }
    } else {
      ForgettingKeepsLoopFree(t, s, x, s');
    }
  }

  // ---- Frames come from interfaces ----

  ghost predicate FromIfaces(ifs: seq<Iface>, out: seq<Frame>) {
    forall f :: f in out ==> exists i :: 0 <= i < |ifs| && ifs[i].mac == f.src
  }

  lemma {:induction false} FloodFromIfaces(ifs: seq<Iface>, k: nat, bcid: int, dest: Ip, force: int)
    requires k <= |ifs|
    ensures FromIfaces(ifs, FloodFrames(ifs, k, bcid, dest, force))
  {
    if k > 0 { FloodFromIfaces(ifs, k - 1, bcid, dest, force); }
  }

  lemma PayloadFromIfaces(ifs: seq<Iface>, node: Node, src: Ip, dest: Ip, kind: Kind, msg: string, force: int)
    ensures FromIfaces(ifs, PayloadFrames(ifs, node, src, dest, kind, msg, force))
  {
    FloodFromIfaces(ifs, |ifs|, node.bid, dest, force);
  }

  lemma AnswerFromIfaces(ifs: seq<Iface>, node: Node, changed: bool, h: Header, stray: Mac, reply: string)
    ensures FromIfaces(ifs, Answer(ifs, node, changed, h, stray, reply))
  {
    PayloadFromIfaces(ifs, node, h.dest, h.src, PayloadReq, " ", 0);
    PayloadFromIfaces(ifs, node, h.dest, h.src, PayloadResp, reply, 0);
    PayloadFromIfaces(ifs, node, h.src, h.dest, h.kind, h.msg, 0);
  }

  lemma {:induction false} RequestFromIfaces(ifs: seq<Iface>, k: nat, node: Node, dest: Ip, force: int)
    requires k <= |ifs|
    ensures FromIfaces(ifs, RequestFrames(ifs, k, node, dest, force))
  {
    if k > 0 {
      RequestFromIfaces(ifs, k - 1, node, dest, force);
      PayloadFromIfaces(ifs, node, ifs[k - 1].ip, dest, PayloadReq, " ", force);
    }
  }

  lemma AirKnown(t: Topology, n: NodeId, table: map<Ip, Row>, kind: Kind, prior: seq<NodeId>,
                 out: seq<Frame>, air: multiset<Packet>)
    requires Configured(t) && n in t.ifs && FromIfaces(t.ifs[n], out) && Carried(t, n, table, kind, prior, out, air)
    ensures forall q :: q in air ==> q.frame.src in t.owner
  {
  }

  lemma StepKeepsSenders(t: Topology, s: State, x: Step, s': State)
    requires Configured(t) && NextStep(t, s, x, s') && SendersKnown(t, s)
    ensures SendersKnown(t, s')
  {
    if x.Plain? && x.e.Deliver? {
      var p := x.e.p;
      var (node, out) := Process(t.ifs[p.to], s.nodes[p.to], p.frame, s.clock, x.e.stray, x.e.reply);
      AnswerFromIfaces(t.ifs[p.to], node, node.table != s.nodes[p.to].table, p.frame.hdr, x.e.stray, x.e.reply);
      AirKnown(t, p.to, node.table, p.frame.hdr.kind, p.trail, out, x.e.air);
    } else if x.Plain? && x.e.Ask? {
      var (node, out) := Request(t.ifs[x.e.n], s.nodes[x.e.n], x.e.dest, 0);
      RequestFromIfaces(t.ifs[x.e.n], |t.ifs[x.e.n]|, node, x.e.dest, 0);
      AirKnown(t, x.e.n, node.table, Rreq, [], out, x.e.air);
    } else if x.Forced? {
      var (node, out) := Request(t.ifs[x.n], s.nodes[x.n], x.dest, 1);
      RequestFromIfaces(t.ifs[x.n], |t.ifs[x.n]|, node, x.dest, 1);
      AirKnown(t, x.n, node.table, Rreq, [], out, x.air);
    }
  }

  lemma {:induction false} RunKeepsSenders(t: Topology, run: seq<State>, steps: seq<Step>, k: nat)
    requires Configured(t) && IsClearingRun(t, run, steps) && k < |run|
    ensures SendersKnown(t, run[k])
  {
    if k > 0 {
      RunKeepsSenders(t, run, steps, k - 1);
      StepKeepsSenders(t, run[k - 1], steps[k - 1], run[k]);
    }
  }

  lemma {:induction false} LoopFreeSoFar(t: Topology, run: seq<State>, steps: seq<Step>, k: nat)
    requires Configured(t) && IsClearingRun(t, run, steps) && k < |run|
    requires forall i :: 0 <= i < k ==> !ClosesLoop(t, run[i], steps[i])
    ensures AllLoopFree(t, run[k])
  {
    if k > 0 {
      LoopFreeSoFar(t, run, steps, k - 1);
      RunKeepsSenders(t, run, steps, k - 1);
      StepLoopFreeIff(t, run[k - 1], steps[k - 1], run[k]);
    } else {
      forall a, path | HopsAlong(t, run[0], a, path) ensures Distinct(path) {
        assert |path| > 1 ==> HopsTo(t, run[0], a, path[0], path[1]);
      }
    }
  }

  /** Over a whole run with any number of clears, no state ever has a routing loop
      exactly when no delivery of the run closes one. */
  lemma RunLoopFreeIff(t: Topology, run: seq<State>, steps: seq<Step>)
    requires Configured(t) && IsClearingRun(t, run, steps)
    ensures (forall k :: 0 <= k < |run| ==> AllLoopFree(t, run[k])) <==>
            (forall k :: 0 <= k < |steps| ==> !ClosesLoop(t, run[k], steps[k]))
  {
    if forall k :: 0 <= k < |steps| ==> !ClosesLoop(t, run[k], steps[k]) {
      forall k | 0 <= k < |run| ensures AllLoopFree(t, run[k]) { LoopFreeSoFar(t, run, steps, k); }
    } else {
      var k :| 0 <= k < |steps| && ClosesLoop(t, run[k], steps[k]);
      if AllLoopFree(t, run[k]) {
        RunKeepsSenders(t, run, steps, k);
        StepLoopFreeIff(t, run[k], steps[k], run[k + 1]);
        assert !AllLoopFree(t, run[k + 1]);
      }
    }
  }
}
