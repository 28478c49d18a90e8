/** The clients of a network run (hw3/odr.c): every daemon's buffer of waiting clients,
kept along the events by the same scans the daemon runs.
*/
module OdrClients {
  import opened OdrBuffer
  import opened RoutingTable
  import opened OdrNode
  import opened OdrNetwork

  // ---- Every daemon's buffer along a run ----

  /** What an event does to the clients of node `n`. */
  function TillStep(t: Topology, n: NodeId, till: Till, e: Event): Till
    requires n in t.ifs
  {
    match e
    case Ask(m, dest, port, _) =>
      if m == n then till.(slots := PushSlot(till.slots, Client(dest, port))) else till
    case Deliver(p, _, _, _) =>
      if p.to == n then HandAnswer(t.ifs[n], till, p.frame.hdr) else till
    case _ => till
  }

  function Opening(): Till {
    Till(BlankBuffer(), [])
  }

  /** The clients of node `n` before and after every event. */
  ghost predicate Tills(t: Topology, n: NodeId, events: seq<Event>, tills: seq<Till>) {
    && n in t.ifs && |tills| == |events| + 1 && tills[0] == Opening()
    && forall i :: 0 <= i < |events| ==> tills[i + 1] == TillStep(t, n, tills[i], events[i])
  }

  lemma TillsMore(t: Topology, n: NodeId, events: seq<Event>, tills: seq<Till>, e: Event)
    requires Tills(t, n, events, tills)
    ensures Tills(t, n, events + [e], tills + [TillStep(t, n, tills[|events|], e)])
  {
    var events', tills' := events + [e], tills + [TillStep(t, n, tills[|events|], e)];
    forall i | 0 <= i < |events'| ensures tills'[i + 1] == TillStep(t, n, tills'[i], events'[i]) {
      if i < |events| { assert tills[i + 1] == TillStep(t, n, tills[i], events[i]); }
    }
  }

  // ---- Every client is served once or waits ----

  function Asking(e: Event, n: NodeId): multiset<Client> {
    if e.Ask? && e.n == n then multiset{Client(e.dest, e.port)} else multiset{}
  }

  /** The requests made at node `n`. */
  function Asked(events: seq<Event>, n: NodeId): multiset<Client> {
    if events == [] then multiset{} else Asked(events[..|events| - 1], n) + Asking(events[|events| - 1], n)
  }

  function Answered(handed: seq<Handed>): multiset<Client> {
    if handed == [] then multiset{}
    else Answered(handed[..|handed| - 1]) + multiset{handed[|handed| - 1].client}
  }

  lemma AnsweredOneMore(handed: seq<Handed>, x: Handed)
    ensures Answered(handed + [x]) == Answered(handed) + multiset{x.client}
  {
    var all := handed + [x];
    assert all[..|all| - 1] == handed;
  }

  /** Each time a client of node `n` asks, fewer than 100 requests there are unanswered. */
  ghost predicate Roomy(n: NodeId, events: seq<Event>, tills: seq<Till>)
    requires |tills| == |events| + 1
  {
    forall k :: 0 <= k < |events| && events[k].Ask? && events[k].n == n ==>
      |Asked(events[..k], n)| < |Answered(tills[k].handed)| + BUFFER_SIZE
  }

  /** All requests are accounted for by the slots and the answers. */
  ghost predicate Balanced(till: Till, asked: multiset<Client>) {
    |till.slots| == BUFFER_SIZE && asked == Pending(till.slots) + Answered(till.handed)
  }

  lemma AskBalances(till: Till, asked: multiset<Client>, c: Client)
    requires Balanced(till, asked) && |asked| < |Answered(till.handed)| + BUFFER_SIZE
    ensures Balanced(till.(slots := PushSlot(till.slots, c)), asked + multiset{c})
  {
    PushAdds(till.slots, c);
    Swap(Pending(till.slots), Answered(till.handed), multiset{c});
  }

  lemma AnswerBalances(ifs: seq<Iface>, till: Till, asked: multiset<Client>, h: Header)
    requires Balanced(till, asked)
    ensures Balanced(HandAnswer(ifs, till, h), asked)
  {
    var (slots, client) := ServeSlot(till.slots, h.src);
    ServeRemoves(till.slots, h.src);
    if client.Some? {
      AnsweredOneMore(till.handed, Handed(client.value, h.msg));
      Swap(Pending(slots), Answered(till.handed), multiset{client.value});
    }
  }

  lemma StepBalances(t: Topology, n: NodeId, till: Till, e: Event, asked: multiset<Client>)
    requires n in t.ifs && Balanced(till, asked)
    requires e.Ask? && e.n == n ==> |asked| < |Answered(till.handed)| + BUFFER_SIZE
    ensures Balanced(TillStep(t, n, till, e), asked + Asking(e, n))
  {
    if e.Ask? && e.n == n {
      AskBalances(till, asked, Client(e.dest, e.port));
    } else {
      assert asked + Asking(e, n) == asked;
      if e.Deliver? && e.p.to == n { AnswerBalances(t.ifs[n], till, asked, e.p.frame.hdr); }
    }
  }

  lemma OpeningBalances(none: seq<Event>, n: NodeId)
    requires none == []
    ensures Balanced(Opening(), Asked(none, n))
  {
    BlankIsEmpty();
  }

  lemma RoomAt(n: NodeId, events: seq<Event>, tills: seq<Till>, k: nat)
    requires |tills| == |events| + 1 && Roomy(n, events, tills) && k < |events| && events[k].Ask? && events[k].n == n
    ensures |Asked(events[..k], n)| < |Answered(tills[k].handed)| + BUFFER_SIZE
  {
  }

  lemma AskedMore(events: seq<Event>, n: NodeId, k: nat)
    requires k < |events|
    ensures Asked(events[..k + 1], n) == Asked(events[..k], n) + Asking(events[k], n)
  {
    assert events[..k + 1][..k] == events[..k];
  }

  /** At every daemon, after every event, the requests made are the clients in the busy
      slots and those that were handed an answer, each counted once, as long as the
      buffer has room whenever a client asks. */
  lemma {:induction false} AskedOnceAnsweredOnce(t: Topology, n: NodeId, events: seq<Event>, tills: seq<Till>, k: nat)
    requires Tills(t, n, events, tills) && Roomy(n, events, tills) && k <= |events|
    ensures Balanced(tills[k], Asked(events[..k], n))
  {
    if k == 0 {
      OpeningBalances(events[..0], n);
    } else {
      AskedOnceAnsweredOnce(t, n, events, tills, k - 1);
      AskedMore(events, n, k - 1);
      if events[k - 1].Ask? && events[k - 1].n == n { RoomAt(n, events, tills, k - 1); }
      StepBalances(t, n, tills[k - 1], events[k - 1], Asked(events[..k - 1], n));
    }
  }

  /** An answer is handed over exactly when it is at its target and some client there
      waits for it. */
  lemma HandedIff(ifs: seq<Iface>, till: Till, h: Header)
    ensures HandAnswer(ifs, till, h).handed != till.handed <==>
            h.kind == PayloadResp && Owns(ifs, h.dest) && exists c :: c in Pending(till.slots) && c.dest == h.src
  {
    ServeRemoves(till.slots, h.src);
  }

  // ---- Answers are authentic ----

  /** In these events a node that owns `d` took a payload for it, and its time server
      answered `msg`. */
  ghost predicate Replied(t: Topology, events: seq<Event>, d: Ip, msg: string) {
    exists k :: 0 <= k < |events| && RepliedAt(t, events[k], d, msg)
  }

  predicate RepliedAt(t: Topology, e: Event, d: Ip, msg: string) {
    && e.Deliver? && e.p.frame.hdr.kind == PayloadReq && e.p.frame.hdr.dest == d
    && OwnsAt(t, e.p.to, d) && e.reply == msg
  }

  ghost predicate AllReplied(t: Topology, s: State, events: seq<Event>) {
    forall p :: p in s.net && p.frame.hdr.kind == PayloadResp ==>
      Replied(t, events, p.frame.hdr.src, p.frame.hdr.msg)
  }

  lemma RepliedStays(t: Topology, events: seq<Event>, e: Event, d: Ip, msg: string)
    requires Replied(t, events, d, msg)
    ensures Replied(t, events + [e], d, msg)
  {
    var k :| 0 <= k < |events| && RepliedAt(t, events[k], d, msg);
    assert (events + [e])[k] == events[k];
  }

  /** An answer leaves a node only if its own server gave it or it is passed on. */
  lemma AnswerOrigin(ifs: seq<Iface>, node: Node, changed: bool, h: Header, stray: Mac, reply: string, f: Frame)
    requires f in Answer(ifs, node, changed, h, stray, reply) && f.hdr.kind == PayloadResp
    ensures || (h.kind == PayloadReq && Owns(ifs, h.dest) && f.hdr.src == h.dest && f.hdr.msg == reply)
            || (h.kind == PayloadResp && f.hdr.src == h.src && f.hdr.msg == h.msg)
  {
    PayloadOrigin(ifs, node, h.dest, h.src, PayloadReq, " ");
    PayloadOrigin(ifs, node, h.dest, h.src, PayloadResp, reply);
    PayloadOrigin(ifs, node, h.src, h.dest, h.kind, h.msg);
  }

  lemma PayloadOrigin(ifs: seq<Iface>, node: Node, src: Ip, dest: Ip, kind: Kind, msg: string)
    ensures forall f :: f in PayloadFrames(ifs, node, src, dest, kind, msg, 0) && f.hdr.kind == PayloadResp ==>
              kind == PayloadResp && f.hdr.src == src && f.hdr.msg == msg
  {
    FloodKinds(ifs, |ifs|, node.bid, dest, 0);
  }

  lemma {:induction false} RequestsAskOnly(ifs: seq<Iface>, k: nat, node: Node, dest: Ip)
    requires k <= |ifs|
    ensures forall f :: f in RequestFrames(ifs, k, node, dest, 0) ==> f.hdr.kind != PayloadResp
  {
    if k > 0 {
      RequestsAskOnly(ifs, k - 1, node, dest);
      PayloadOrigin(ifs, node, ifs[k - 1].ip, dest, PayloadReq, " ");
    }
  }

  lemma NextKeepsReplied(t: Topology, s: State, events: seq<Event>, e: Event, s': State)
    requires Next(t, s, e, s') && AllReplied(t, s, events)
    ensures AllReplied(t, s', events + [e])
  {
    forall q | q in s'.net && q.frame.hdr.kind == PayloadResp
      ensures Replied(t, events + [e], q.frame.hdr.src, q.frame.hdr.msg)
    {
      if q in s.net {
        RepliedStays(t, events, e, q.frame.hdr.src, q.frame.hdr.msg);
      } else if e.Ask? {
        var node := Request(t.ifs[e.n], s.nodes[e.n], e.dest, 0).0;
        RequestsAskOnly(t.ifs[e.n], |t.ifs[e.n]|, node, e.dest);
      } else {
        SentReplied(t, s, events, e, s', q);
      }
    }
  }

  lemma SentReplied(t: Topology, s: State, events: seq<Event>, e: Event, s': State, q: Packet)
    requires Next(t, s, e, s') && e.Deliver? && AllReplied(t, s, events)
    requires q in e.air && q.frame.hdr.kind == PayloadResp
    ensures Replied(t, events + [e], q.frame.hdr.src, q.frame.hdr.msg)
  {
    var p, n, h := e.p, e.p.to, e.p.frame.hdr;
    var node := Process(t.ifs[n], s.nodes[n], p.frame, s.clock, e.stray, e.reply).0;
    AnswerOrigin(t.ifs[n], node, node.table != s.nodes[n].table, h, e.stray, e.reply, q.frame);
    if h.kind == PayloadReq {
      assert (events + [e])[|events|] == e;
      assert RepliedAt(t, (events + [e])[|events|], h.dest, e.reply);
    } else {
      RepliedStays(t, events, e, h.src, h.msg);
    }
  }

  lemma {:induction false} RunReplied(t: Topology, run: seq<State>, events: seq<Event>, k: nat)
    requires IsRun(t, run, events) && k <= |events|
    ensures AllReplied(t, run[k], events[..k])
  {
    if k > 0 {
      RunReplied(t, run, events, k - 1);
      NextKeepsReplied(t, run[k - 1], events[..k - 1], events[k - 1], run[k]);
      assert events[..k - 1] + [events[k - 1]] == events[..k];
    }
  }

  ghost predicate AllAuthentic(t: Topology, till: Till, events: seq<Event>) {
    forall x :: x in till.handed ==> Replied(t, events, x.client.dest, x.msg)
  }

  lemma TillStepAuthentic(t: Topology, n: NodeId, s: State, till: Till, events: seq<Event>, e: Event, s': State)
    requires n in t.ifs && Next(t, s, e, s') && AllReplied(t, s, events) && AllAuthentic(t, till, events)
    ensures AllAuthentic(t, TillStep(t, n, till, e), events + [e])
  {
    forall x | x in TillStep(t, n, till, e).handed ensures Replied(t, events + [e], x.client.dest, x.msg) {
      if x !in till.handed {
        ServeRemoves(till.slots, e.p.frame.hdr.src);
        assert e.p in s.net;
      }
      RepliedStays(t, events, e, x.client.dest, x.msg);
    }
  }

  /** Whatever a client is handed for the address it asked for is what the time server
      of an owner of that address answered in the same run. */
  lemma {:induction false} AnswersAuthentic(t: Topology, n: NodeId, run: seq<State>, events: seq<Event>,
                                            tills: seq<Till>, k: nat)
    requires IsRun(t, run, events) && Tills(t, n, events, tills) && k <= |events|
    ensures forall x :: x in tills[k].handed ==> Replied(t, events[..k], x.client.dest, x.msg)
  {
    if k > 0 {
      AnswersAuthentic(t, n, run, events, tills, k - 1);
      RunReplied(t, run, events, k - 1);
      TillStepAuthentic(t, n, run[k - 1], tills[k - 1], events[..k - 1], events[k - 1], run[k]);
      assert events[..k] == events[..k - 1] + [events[k - 1]];
    }
  }
}
