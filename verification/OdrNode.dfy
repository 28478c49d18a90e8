/** One ODR daemon (hw3/odr.c): what a node does with a frame or a client request.

The first half states each action as a function of the node's state. The class
`Daemon` runs the same actions in place, over the row array, with the source's
loops over interfaces, and is proved to do exactly what the functions say.
*/
module OdrNode {
  import opened Basics
  import opened OdrBuffer
  import opened RoutingTable

  const BROADCAST: Mac := 0xffff_ffff_ffff

  datatype Kind = Rrep | Rreq | PayloadReq | PayloadResp

  datatype Header = Header(src: Ip, dest: Ip, hop: int, bcid: int, kind: Kind, force: int, msg: string)

  datatype Frame = Frame(dst: Mac, src: Mac, hdr: Header)

  datatype Iface = Iface(ip: Ip, mac: Mac)

  datatype Node = Node(table: map<Ip, Row>, bid: int)

  predicate Owns(ifs: seq<Iface>, ip: Ip) {
    exists i :: 0 <= i < |ifs| && ifs[i].ip == ip
  }

  predicate Addressed(h: Header) {
    h.src != "" && h.dest != ""
  }

  predicate IsControl(h: Header) {
    h.kind == Rreq || h.kind == Rrep
  }

  /** One copy of the header out of every interface. */
  function SendAll(ifs: seq<Iface>, dst: Mac, h: Header): seq<Frame> {
    seq(|ifs|, i requires 0 <= i < |ifs| => Frame(dst, ifs[i].mac, h))
  }

  /** `send_rreq` */
  function RreqFrames(ifs: seq<Iface>, bcid: int, hop: int, src: Ip, dest: Ip, force: int): seq<Frame> {
    SendAll(ifs, BROADCAST, Header(src, dest, hop, bcid, Rreq, force, ""))
  }

  /** `send_rrep`. Without a row for the target the source reads the memory in front
      of the row array; `stray` is whatever address those bytes make. */
  function RrepFrames(ifs: seq<Iface>, table: map<Ip, Row>, bcid: int, hop: int, dest: Ip, src: Ip,
                      stray: Mac): seq<Frame> {
    SendAll(ifs, if dest in table then table[dest].nextHop else stray, Header(src, dest, hop, bcid, Rrep, 0, ""))
  }

  /** The RREQs `send_payload` originates, one flood for each of the first `k` own addresses. */
  function FloodFrames(ifs: seq<Iface>, k: nat, bcid: int, dest: Ip, force: int): seq<Frame>
    requires k <= |ifs|
  {
    if k == 0 then []
    else FloodFrames(ifs, k - 1, bcid, dest, force) + RreqFrames(ifs, bcid, 1, ifs[k - 1].ip, dest, force)
  }

  /** `send_payload` */
  function PayloadFrames(ifs: seq<Iface>, node: Node, src: Ip, dest: Ip, kind: Kind, msg: string,
                         force: int): seq<Frame> {
    if dest !in node.table then FloodFrames(ifs, |ifs|, node.bid, dest, force)
    else SendAll(ifs, node.table[dest].nextHop, Header(src, dest, node.table[dest].hop, node.bid, kind, force, msg))
  }

  /** The table after the first part of `process_frame`: control frames from
      someone else's address are learned from. */
  function Learned(ifs: seq<Iface>, table: map<Ip, Row>, f: Frame, now: nat): map<Ip, Row> {
    if IsControl(f.hdr) && !Owns(ifs, f.hdr.src)
    then Learn(table, f.hdr.src, f.hdr.hop, f.hdr.bcid, f.src, now)
    else table
  }

  /** The frames `process_frame` sends once the table is updated. `changed` is its
      `update` flag and `reply` what the local time server answers. */
  function Answer(ifs: seq<Iface>, node: Node, changed: bool, h: Header, stray: Mac, reply: string): seq<Frame> {
    match h.kind
    case Rreq =>
      if Owns(ifs, h.dest) || h.dest in node.table
      then RrepFrames(ifs, node.table, h.bcid, 1, h.src, h.dest, stray)
      else if changed then RreqFrames(ifs, h.bcid, h.hop + 1, h.src, h.dest, h.force)
      else []
    case Rrep =>
      if Owns(ifs, h.dest) then PayloadFrames(ifs, node, h.dest, h.src, PayloadReq, " ", 0)
      else RrepFrames(ifs, node.table, h.bcid, h.hop + 1, h.dest, h.src, stray)
    case PayloadReq =>
      if Owns(ifs, h.dest) then PayloadFrames(ifs, node, h.dest, h.src, PayloadResp, reply, 0)
      else if h.dest in node.table then PayloadFrames(ifs, node, h.src, h.dest, h.kind, h.msg, 0)
      else []
    case PayloadResp =>
      if !Owns(ifs, h.dest) && h.dest in node.table then PayloadFrames(ifs, node, h.src, h.dest, h.kind, h.msg, 0)
      else []
  }

  /** `process_frame` */
  function Process(ifs: seq<Iface>, node: Node, f: Frame, now: nat, stray: Mac, reply: string): (Node, seq<Frame>) {
    var node' := node.(table := Learned(ifs, node.table, f, now));
    (node', Answer(ifs, node', node'.table != node.table, f.hdr, stray, reply))
  }

  /** The frames of a client request, first `k` interfaces. */
  function RequestFrames(ifs: seq<Iface>, k: nat, node: Node, dest: Ip, force: int): seq<Frame>
    requires k <= |ifs|
  {
    if k == 0 then []
    else RequestFrames(ifs, k - 1, node, dest, force)
         + PayloadFrames(ifs, node, ifs[k - 1].ip, dest, PayloadReq, " ", force)
  }

  /** The client-request step of `main`: the force flag clears the table, once per
      interface and before anything is sent. */
  function Request(ifs: seq<Iface>, node: Node, dest: Ip, force: int): (Node, seq<Frame>) {
    var node' := Node(if force == 1 && ifs != [] then map[] else node.table, node.bid + 1);
    (node', RequestFrames(ifs, |ifs|, node', dest, force))
  }

  // ---- The clients ----

  datatype Handed = Handed(client: Client, msg: string)

  /** The clients' buffer, and what has been handed to them. */
  datatype Till = Till(slots: seq<Slot>, handed: seq<Handed>)

  /** What `process_frame` does for the clients: an answer that is at its target goes
      to the first client waiting for it. */
  function HandAnswer(ifs: seq<Iface>, till: Till, h: Header): Till {
    if h.kind == PayloadResp && Owns(ifs, h.dest) then
      var (slots, client) := ServeSlot(till.slots, h.src);
      Till(slots, if client.Some? then till.handed + [Handed(client.value, h.msg)] else till.handed)
    else till
  }

  class Daemon {
    const ifs: seq<Iface>
    const table: Table
    const buffer: ClientBuffer
    var handed: seq<Handed>
    var bid: int
    var sent: seq<Frame>

    ghost predicate Valid()
      reads this, table, table.rows
    {
      table.Valid() && buffer.Valid()
    }

    ghost function Clients(): Till
      reads this, buffer.slots
    {
      Till(buffer.slots[..], handed)
    }

    ghost function State(): Node
      reads this, table, table.rows
    {
      Node(table.View(), bid)
    }

    constructor (ifs: seq<Iface>)
      ensures Valid() && fresh(table) && fresh(table.rows) && fresh(buffer.slots)
      ensures this.ifs == ifs && State() == Node(map[], 1) && sent == []
      ensures Clients() == Till(BlankBuffer(), [])
    {
      this.ifs := ifs;
      table := new Table();
      buffer := new ClientBuffer();
      bid := 1;
      sent, handed := [], [];
    }

    /** `source_ip_cmp`: the last own interface with this address, or -1. */
    method SourceIpCmp(ip: Ip) returns (found: int)
      ensures -1 <= found < |ifs|
      ensures found == -1 <==> !Owns(ifs, ip)
      ensures found != -1 ==> ifs[found].ip == ip && forall j :: found < j < |ifs| ==> ifs[j].ip != ip
    {
      found := -1;
      for i := 0 to |ifs|
        invariant -1 <= found < i
        invariant found == -1 ==> forall j :: 0 <= j < i ==> ifs[j].ip != ip
        invariant found != -1 ==> ifs[found].ip == ip && forall j :: found < j < i ==> ifs[j].ip != ip
      {
        if ifs[i].ip == ip { found := i; }
      }
    }

    method SendEach(dst: Mac, h: Header)
      modifies this`sent
      ensures sent == old(sent) + SendAll(ifs, dst, h)
    {
      for i := 0 to |ifs|
        invariant sent == old(sent) + SendAll(ifs, dst, h)[..i]
      {
        sent := sent + [Frame(dst, ifs[i].mac, h)];
      }
    }

    method SendRreq(bcid: int, hop: int, src: Ip, dest: Ip, force: int)
      modifies this`sent
      ensures sent == old(sent) + RreqFrames(ifs, bcid, hop, src, dest, force)
    {
      SendEach(BROADCAST, Header(src, dest, hop, bcid, Rreq, force, ""));
    }

    method SendRrep(bcid: int, hop: int, dest: Ip, src: Ip, stray: Mac)
      requires Valid()
      requires dest != ""
      modifies this`sent
      ensures sent == old(sent) + RrepFrames(ifs, table.View(), bcid, hop, dest, src, stray)
    {
      var row := table.GetRowEntry(dest);
      var to := stray;
      if row != -1 { to := table.rows[row].nextHop; }
      SendEach(to, Header(src, dest, hop, bcid, Rrep, 0, ""));
    }

    method SendPayload(src: Ip, dest: Ip, kind: Kind, msg: string, force: int)
      requires Valid()
      requires dest != ""
      modifies this`sent
      ensures sent == old(sent) + PayloadFrames(ifs, State(), src, dest, kind, msg, force)
    {
      var row := table.GetRowEntry(dest);
      if row == -1 {
        for i := 0 to |ifs|
          invariant sent == old(sent) + FloodFrames(ifs, i, bid, dest, force)
        {
          SendRreq(bid, 1, ifs[i].ip, dest, force);
        }
      } else {
        SendEach(table.rows[row].nextHop, Header(src, dest, table.rows[row].hop, bid, kind, force, msg));
      }
    }

    /** The answer branch of `process_frame`. */
    method AnswerClient(h: Header)
      requires Valid() && h.kind == PayloadResp && Owns(ifs, h.dest)
      modifies this`handed, buffer.slots
      ensures State() == old(State()) && Clients() == HandAnswer(ifs, old(Clients()), h)
    {
      var client := buffer.HandOver(h.src);
      assert table.rows[..] == old(table.rows[..]);
      if client.Some? { handed := handed + [Handed(client.value, h.msg)]; }
    }

    /** The first part of `process_frame`; the result is its `update` flag. */
    method LearnFrom(f: Frame, now: nat) returns (update: bool)
      requires Valid() && f.hdr.src != ""
      requires IsControl(f.hdr) && !Owns(ifs, f.hdr.src)
               ==> f.hdr.src in table.View() || |table.View()| < ROUTING_TABLE_SIZE
      modifies table.rows
      ensures Valid()
      ensures table.View() == Learned(ifs, old(table.View()), f, now)
      ensures update == (table.View() != old(table.View()))
    {
      var h := f.hdr;
      update := false;
      var own := SourceIpCmp(h.src);
      if h.kind != PayloadReq && h.kind != PayloadResp {
        var should := table.ShouldUpdateRt(h.src, h.hop, h.bcid);
        ShouldUpdateIffChanged(table.View(), h.src, h.hop, h.bcid, f.src, now);
        if should && own == -1 {
          table.Update(h.src, h.hop, h.bcid, f.src, now);
          update := true;
        }
      }
    }

    /** The second part: what is sent, and handed to a client. */
    method Respond(h: Header, update: bool, stray: Mac, reply: string)
      requires Valid() && Addressed(h)
      modifies this`sent, this`handed, buffer.slots
      ensures Valid() && State() == old(State())
      ensures sent == old(sent) + Answer(ifs, old(State()), update, h, stray, reply)
      ensures Clients() == HandAnswer(ifs, old(Clients()), h)
    {
      var index := SourceIpCmp(h.dest);
      var row := table.GetRowEntry(h.dest);
      if h.kind == Rreq {
        if index == -1 && row == -1 && update {
          SendRreq(h.bcid, h.hop + 1, h.src, h.dest, h.force);
        }
        if index != -1 {
          SendRrep(h.bcid, 1, h.src, h.dest, stray);
        } else if row != -1 {
          SendRrep(h.bcid, 1, h.src, h.dest, stray);
        }
      } else if h.kind == Rrep {
        if index != -1 {
          SendPayload(h.dest, h.src, PayloadReq, " ", 0);
        } else {
          SendRrep(h.bcid, h.hop + 1, h.dest, h.src, stray);
        }
      } else if index != -1 {
        if h.kind == PayloadReq {
          SendPayload(h.dest, h.src, PayloadResp, reply, 0);
        } else {
          AnswerClient(h);
        }
      } else if row != -1 {
        SendPayload(h.src, h.dest, h.kind, h.msg, 0);
      }
    }

    method ProcessFrame(f: Frame, now: nat, stray: Mac, reply: string)
      requires Valid()
      requires Addressed(f.hdr)
      requires IsControl(f.hdr) && !Owns(ifs, f.hdr.src)
               ==> f.hdr.src in table.View() || |table.View()| < ROUTING_TABLE_SIZE
      modifies this`sent, this`handed, table.rows, buffer.slots
      ensures Valid()
      ensures var (node', out) := Process(ifs, old(State()), f, now, stray, reply);
              State() == node' && sent == old(sent) + out
      ensures Clients() == HandAnswer(ifs, old(Clients()), f.hdr)
    {
      ghost var slots := buffer.slots[..];
      var update := LearnFrom(f, now);
      assert buffer.slots[..] == slots;
      Respond(f.hdr, update, stray, reply);
    }

    /** One turn of the request step's loop. */
    method RequestTurn(src: Ip, dest: Ip, force: int)
      requires Valid()
      requires dest != ""
      modifies this`sent, table.rows
      ensures Valid()
      ensures table.View() == if force == 1 then map[] else old(table.View())
      ensures sent == old(sent) + PayloadFrames(ifs, State(), src, dest, PayloadReq, " ", force)
    {
      if force == 1 { table.Clear(); }
      SendPayload(src, dest, PayloadReq, " ", force);
    }

    /** The loop of the client-request step, over the interfaces. */
    method RequestLoop(dest: Ip, force: int)
      requires Valid()
      requires dest != ""
      modifies this`sent, table.rows
      ensures Valid()
      ensures table.View() == if force == 1 && ifs != [] then map[] else old(table.View())
      ensures sent == old(sent) + RequestFrames(ifs, |ifs|, State(), dest, force)
    {
      ghost var node' := Node(if force == 1 && ifs != [] then map[] else table.View(), bid);
      for i := 0 to |ifs|
        invariant Valid()
        invariant table.View() == if i > 0 then node'.table else old(table.View())
        invariant sent == old(sent) + RequestFrames(ifs, i, node', dest, force)
      {
        RequestTurn(ifs[i].ip, dest, force);
      }
    }

    method TakeClient(c: Client)
      requires Valid() && |Pending(buffer.slots[..])| < BUFFER_SIZE
      modifies buffer.slots
      ensures Valid() && State() == old(State())
      ensures Clients() == Till(PushSlot(old(buffer.slots[..]), c), handed)
    {
      buffer.PushData(c);
      assert table.rows[..] == old(table.rows[..]);
    }

    /** The client-request step of `main`. */
    method ClientRequest(c: Client, force: int)
      requires Valid()
      requires c.dest != "" && |Pending(buffer.slots[..])| < BUFFER_SIZE
      modifies this`bid, this`sent, table.rows, buffer.slots
      ensures Valid()
      ensures var (node', out) := Request(ifs, old(State()), c.dest, force);
              State() == node' && sent == old(sent) + out
      ensures Clients() == Till(PushSlot(old(buffer.slots[..]), c), old(handed))
    {
      bid := bid + 1;
      TakeClient(c);
      RequestLoop(c.dest, force);
    }
  }
}
