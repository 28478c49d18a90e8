/** What a row says about the whole run (hw3/odr.c): the row a daemon has for an
address is the summary of the control frames about it that were delivered there.
*/
module OdrRows {
  import opened RoutingTable
  import opened OdrNode
  import opened OdrNetwork
  import opened OdrOutcome

  /** What a step tells node `n` about `a`. */
  function Told(t: Topology, n: NodeId, a: Ip, e: Event, now: nat): seq<Report> {
    if e.Deliver? && e.p.to == n && IsControl(e.p.frame.hdr) && e.p.frame.hdr.src == a && !OwnsAt(t, n, a)
    then [Report(e.p.frame.hdr.hop, e.p.frame.hdr.bcid, e.p.frame.src, now)]
    else []
  }

  /** All it was told by the first `k` steps. */
  function Reports(t: Topology, n: NodeId, a: Ip, events: seq<Event>, k: nat): seq<Report>
    requires k <= |events|
  {
    if k == 0 then [] else Reports(t, n, a, events, k - 1) + Told(t, n, a, events[k - 1], k - 1)
  }

  /** The table of `n` for `a` is what the reports say: no row without one. */
  ghost predicate Sums(table: map<Ip, Row>, a: Ip, rs: seq<Report>) {
    (a in table <==> rs != []) && (a in table ==> Summarises(table[a], rs))
  }

  lemma {:induction false} ClockCounts(t: Topology, run: seq<State>, events: seq<Event>, k: nat)
    requires IsRun(t, run, events) && k < |run|
    ensures run[k].clock == k && run[k].nodes.Keys == t.ifs.Keys
  {
    if k > 0 {
      ClockCounts(t, run, events, k - 1);
      assert Next(t, run[k - 1], events[k - 1], run[k]);
    }
  }

  /** One more report. */
  lemma SumsReport(ifs: seq<Iface>, node: Node, f: Frame, now: nat, stray: Mac, reply: string, rs: seq<Report>)
    requires IsControl(f.hdr) && !Owns(ifs, f.hdr.src) && Sums(node.table, f.hdr.src, rs)
    ensures Sums(Process(ifs, node, f, now, stray, reply).0.table, f.hdr.src,
                 rs + [Report(f.hdr.hop, f.hdr.bcid, f.src, now)])
  {
    ControlFrameLearned(ifs, node, f, now, stray, reply);
    var a, r := f.hdr.src, Report(f.hdr.hop, f.hdr.bcid, f.src, now);
    if a in node.table {
      SummaryStep(node.table[a], rs, r);
    } else {
      FirstReport(r);
      assert rs + [r] == [r];
    }
  }

  /** A step that tells node `n` nothing about `a` leaves its row alone. */
  lemma UntoldStays(t: Topology, s: State, e: Event, s': State, n: NodeId, a: Ip)
    requires Next(t, s, e, s') && n in s.nodes && Told(t, n, a, e, s.clock) == []
    ensures n in s'.nodes
    ensures a in s'.nodes[n].table <==> a in s.nodes[n].table
    ensures a in s.nodes[n].table ==> s'.nodes[n].table[a] == s.nodes[n].table[a]
  {
    if e.Deliver? && e.p.to == n {
      if IsControl(e.p.frame.hdr) && !Owns(t.ifs[n], e.p.frame.hdr.src) {
        ControlFrameLearned(t.ifs[n], s.nodes[n], e.p.frame, s.clock, e.stray, e.reply);
      } else {
        OtherFramesTeachNothing(t.ifs[n], s.nodes[n], e.p.frame, s.clock, e.stray, e.reply);
      }
    }
  }

  lemma SumsStep(t: Topology, s: State, e: Event, s': State, n: NodeId, a: Ip, rs: seq<Report>)
    requires Next(t, s, e, s') && n in s.nodes && Sums(s.nodes[n].table, a, rs)
    ensures n in s'.nodes && Sums(s'.nodes[n].table, a, rs + Told(t, n, a, e, s.clock))
  {
    if Told(t, n, a, e, s.clock) == [] {
      UntoldStays(t, s, e, s', n, a);
      assert rs + [] == rs;
    } else {
      SumsReport(t.ifs[n], s.nodes[n], e.p.frame, s.clock, e.stray, e.reply, rs);
    }
  }

  /** In every state of every run a daemon has a row for an address exactly when a
      control frame about it was delivered there, and the row is the summary of those
      frames: the first one's sender and time, the highest broadcast id, and the lowest
      hop count among those that did not raise it. */
  lemma {:induction false} RowSumsUpRun(t: Topology, run: seq<State>, events: seq<Event>, n: NodeId, a: Ip, k: nat)
    requires IsRun(t, run, events) && k < |run| && n in t.ifs
    ensures n in run[k].nodes && Sums(run[k].nodes[n].table, a, Reports(t, n, a, events, k))
  {
    ClockCounts(t, run, events, k);
    if k > 0 {
      RowSumsUpRun(t, run, events, n, a, k - 1);
      ClockCounts(t, run, events, k - 1);
      SumsStep(t, run[k - 1], events[k - 1], run[k], n, a, Reports(t, n, a, events, k - 1));
    }
  }
}
