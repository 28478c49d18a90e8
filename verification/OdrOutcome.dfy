/** What a daemon does with a frame or a client request (hw3/odr.c), told from the
frame and the table before it alone: which row it leaves, which frames go out of
which interface, and to whom.
*/
module OdrOutcome {
  import opened RoutingTable
  import opened OdrNode

  // ---- The send functions ----

  /** One copy of the header to `dst` out of every interface, in order. */
  ghost predicate OutOfEach(ifs: seq<Iface>, out: seq<Frame>, dst: Mac, h: Header) {
    && |out| == |ifs|
    && forall i :: 0 <= i < |ifs| ==> out[i].src == ifs[i].mac && out[i].dst == dst && out[i].hdr == h
  }

  /** Item `j` of block `i`, in blocks of `n`. */
  function At(i: nat, n: nat, j: nat): nat {
    i * n + j
  }

  lemma {:induction false} AtFits(i: nat, k: nat, n: nat, j: nat)
    requires i < k && j < n
    ensures At(i, n, j) < k * n
    decreases k
  {
    assert k * n == (k - 1) * n + n;
    if i < k - 1 { AtFits(i, k - 1, n, j); }
  }

  /** A RREQ for `dest` from every own address out of every interface. */
  ghost predicate Flood(ifs: seq<Iface>, out: seq<Frame>, bcid: int, dest: Ip, force: int) {
    && |out| == |ifs| * |ifs|
    && forall i, j :: 0 <= i < |ifs| && 0 <= j < |ifs| ==>
         FloodedAt(ifs, out, bcid, dest, force, i, j)
  }

  ghost predicate FloodedAt(ifs: seq<Iface>, out: seq<Frame>, bcid: int, dest: Ip, force: int, i: nat, j: nat)
    requires i < |ifs| && j < |ifs|
  {
    && At(i, |ifs|, j) < |out|
    && out[At(i, |ifs|, j)]
       == Frame(0xffff_ffff_ffff, ifs[j].mac, Header(ifs[i].ip, dest, 1, bcid, Rreq, force, ""))
  }

  lemma {:induction false} FloodAt(ifs: seq<Iface>, k: nat, bcid: int, dest: Ip, force: int, i: nat, j: nat)
    requires i < k <= |ifs| && j < |ifs|
    ensures |FloodFrames(ifs, k, bcid, dest, force)| == k * |ifs|
    ensures FloodedAt(ifs, FloodFrames(ifs, k, bcid, dest, force), bcid, dest, force, i, j)
    decreases k
  {
    FloodSize(ifs, k, bcid, dest, force);
    FloodSize(ifs, k - 1, bcid, dest, force);
    AtFits(i, k, |ifs|, j);
    if i < k - 1 {
      AtFits(i, k - 1, |ifs|, j);
      FloodAt(ifs, k - 1, bcid, dest, force, i, j);
    }
  }

  lemma {:induction false} FloodSize(ifs: seq<Iface>, k: nat, bcid: int, dest: Ip, force: int)
    requires k <= |ifs|
    ensures |FloodFrames(ifs, k, bcid, dest, force)| == k * |ifs|
  {
    if k > 0 {
      FloodSize(ifs, k - 1, bcid, dest, force);
      assert k * |ifs| == (k - 1) * |ifs| + |ifs|;
    }
  }

  lemma FloodExact(ifs: seq<Iface>, bcid: int, dest: Ip, force: int)
    ensures Flood(ifs, FloodFrames(ifs, |ifs|, bcid, dest, force), bcid, dest, force)
  {
    var out := FloodFrames(ifs, |ifs|, bcid, dest, force);
    FloodSize(ifs, |ifs|, bcid, dest, force);
    forall i, j | 0 <= i < |ifs| && 0 <= j < |ifs| ensures FloodedAt(ifs, out, bcid, dest, force, i, j) {
      FloodAt(ifs, |ifs|, bcid, dest, force, i, j);
    }
  }

  /** `send_payload`: along the row, or a flood without one. */
  lemma PayloadExact(ifs: seq<Iface>, node: Node, src: Ip, dest: Ip, kind: Kind, msg: string, force: int)
    ensures var out := PayloadFrames(ifs, node, src, dest, kind, msg, force);
            if dest in node.table then
              OutOfEach(ifs, out, node.table[dest].nextHop,
                        Header(src, dest, node.table[dest].hop, node.bid, kind, force, msg))
            else Flood(ifs, out, node.bid, dest, force)
  {
    FloodExact(ifs, node.bid, dest, force);
  }

  // ---- What a frame teaches ----

  function Max(a: int, b: int): int {
    if a < b then b else a
  }

  function Min(a: int, b: int): int {
    if a < b then a else b
  }

  /** A control frame about someone else's address leaves a row for it: a new one back
      to the sender, or the old one with the higher broadcast id and, unless the frame
      raised that, the lower hop count. No other row changes. */
  lemma ControlFrameLearned(ifs: seq<Iface>, node: Node, f: Frame, now: nat, stray: Mac, reply: string)
    requires IsControl(f.hdr) && !Owns(ifs, f.hdr.src)
    ensures var a, t := f.hdr.src, node.table; var node' := Process(ifs, node, f, now, stray, reply).0;
            var t' := node'.table;
            && node'.bid == node.bid && t'.Keys == t.Keys + {a}
            && (forall x :: x in t && x != a ==> t'[x] == t[x])
            && (a !in t ==> t'[a] == Row(f.src, f.hdr.hop, now, f.hdr.bcid))
            && (a in t ==>
                  && t'[a].nextHop == t[a].nextHop && t'[a].ts == t[a].ts
                  && t'[a].bid == Max(t[a].bid, f.hdr.bcid)
                  && t'[a].hop == if f.hdr.bcid > t[a].bid then t[a].hop else Min(t[a].hop, f.hdr.hop))
  {
  }

  lemma OtherFramesTeachNothing(ifs: seq<Iface>, node: Node, f: Frame, now: nat, stray: Mac, reply: string)
    requires !IsControl(f.hdr) || Owns(ifs, f.hdr.src)
    ensures Process(ifs, node, f, now, stray, reply).0 == node
  {
  }

  // ---- What a frame makes the daemon send ----

  /** The next hop to `a` once the frame is learned from, the stray address without one. */
  function WayTo(ifs: seq<Iface>, t: map<Ip, Row>, f: Frame, a: Ip, stray: Mac): Mac {
    if a in t then t[a].nextHop
    else if IsControl(f.hdr) && a == f.hdr.src && !Owns(ifs, a) then f.src
    else stray
  }

  /** The frame says something about its source that the table does not. */
  predicate News(ifs: seq<Iface>, t: map<Ip, Row>, f: Frame) {
    && !Owns(ifs, f.hdr.src)
    && (f.hdr.src !in t || f.hdr.bcid > t[f.hdr.src].bid || f.hdr.hop < t[f.hdr.src].hop)
  }

  /** A RREQ for an address the daemon owns or has a row for is answered, with hop count
      1, along the way back. Any other is passed on, one hop further, exactly when it is
      news. */
  lemma RreqOutcome(ifs: seq<Iface>, node: Node, f: Frame, now: nat, stray: Mac, reply: string)
    requires f.hdr.kind == Rreq
    ensures var h, t, out := f.hdr, node.table, Process(ifs, node, f, now, stray, reply).1;
            if Owns(ifs, h.dest) || h.dest in t || h.dest == h.src then
              OutOfEach(ifs, out, WayTo(ifs, t, f, h.src, stray), Header(h.dest, h.src, 1, h.bcid, Rrep, 0, ""))
            else if News(ifs, t, f) then
              OutOfEach(ifs, out, 0xffff_ffff_ffff, Header(h.src, h.dest, h.hop + 1, h.bcid, Rreq, h.force, ""))
            else out == []
  {
    ShouldUpdateIffChanged(node.table, f.hdr.src, f.hdr.hop, f.hdr.bcid, f.src, now);
  }

  /** A RREP at its target makes the daemon send its request to the address found; any
      other is passed on, one hop further. */
  lemma RrepOutcome(ifs: seq<Iface>, node: Node, f: Frame, now: nat, stray: Mac, reply: string)
    requires f.hdr.kind == Rrep
    ensures var h, t := f.hdr, node.table; var (node', out) := Process(ifs, node, f, now, stray, reply);
            if !Owns(ifs, h.dest) then
              OutOfEach(ifs, out, WayTo(ifs, t, f, h.dest, stray),
                        Header(h.src, h.dest, h.hop + 1, h.bcid, Rrep, 0, ""))
            else if h.src in t || !Owns(ifs, h.src) then
              && h.src in node'.table
              && OutOfEach(ifs, out, WayTo(ifs, t, f, h.src, stray),
                           Header(h.dest, h.src, node'.table[h.src].hop, node.bid, PayloadReq, 0, " "))
            else Flood(ifs, out, node.bid, h.src, 0)
  {
    PayloadExact(ifs, Process(ifs, node, f, now, stray, reply).0, f.hdr.dest, f.hdr.src, PayloadReq, " ", 0);
  }

  /** A payload request at its target is answered with what the time server says. A
      payload elsewhere goes along the row for its target, or nowhere without one. */
  lemma PayloadOutcome(ifs: seq<Iface>, node: Node, f: Frame, now: nat, stray: Mac, reply: string)
    requires !IsControl(f.hdr)
    ensures var h, t, out := f.hdr, node.table, Process(ifs, node, f, now, stray, reply).1;
            if Owns(ifs, h.dest) && h.kind == PayloadReq then
              if h.src in t then
                OutOfEach(ifs, out, t[h.src].nextHop,
                          Header(h.dest, h.src, t[h.src].hop, node.bid, PayloadResp, 0, reply))
              else Flood(ifs, out, node.bid, h.src, 0)
            else if !Owns(ifs, h.dest) && h.dest in t then
              OutOfEach(ifs, out, t[h.dest].nextHop,
                        Header(h.src, h.dest, t[h.dest].hop, node.bid, h.kind, 0, h.msg))
            else out == []
  {
    PayloadExact(ifs, node, f.hdr.dest, f.hdr.src, PayloadResp, reply, 0);
  }

  // ---- A client request ----

  lemma {:induction false} RequestBlock(ifs: seq<Iface>, k: nat, node: Node, dest: Ip, force: int, size: nat, i: nat)
    requires i < k <= |ifs|
    requires forall x :: 0 <= x < |ifs| ==> |Turn(ifs, node, dest, force, x)| == size
    ensures |RequestFrames(ifs, k, node, dest, force)| == k * size
    ensures forall j :: 0 <= j < size ==>
              && At(i, size, j) < k * size
              && RequestFrames(ifs, k, node, dest, force)[At(i, size, j)] == Turn(ifs, node, dest, force, i)[j]
    decreases k
  {
    RequestSize(ifs, k, node, dest, force, size);
    RequestSize(ifs, k - 1, node, dest, force, size);
    forall j | 0 <= j < size
      ensures At(i, size, j) < k * size
      ensures RequestFrames(ifs, k, node, dest, force)[At(i, size, j)] == Turn(ifs, node, dest, force, i)[j]
    {
      AtFits(i, k, size, j);
      if i < k - 1 {
        AtFits(i, k - 1, size, j);
        RequestBlock(ifs, k - 1, node, dest, force, size, i);
      }
    }
  }

  /** What the turn of interface `x` sends. */
  function Turn(ifs: seq<Iface>, node: Node, dest: Ip, force: int, x: nat): seq<Frame>
    requires x < |ifs|
  {
    PayloadFrames(ifs, node, ifs[x].ip, dest, PayloadReq, " ", force)
  }

  lemma {:induction false} RequestSize(ifs: seq<Iface>, k: nat, node: Node, dest: Ip, force: int, size: nat)
    requires k <= |ifs| && forall x :: 0 <= x < |ifs| ==> |Turn(ifs, node, dest, force, x)| == size
    ensures |RequestFrames(ifs, k, node, dest, force)| == k * size
  {
    if k > 0 {
      RequestSize(ifs, k - 1, node, dest, force, size);
      assert |Turn(ifs, node, dest, force, k - 1)| == size;
      assert k * size == (k - 1) * size + size;
    }
  }

  /** Whether the way is known, once the force flag has cleared the table. */
  predicate Routed(node: Node, dest: Ip, force: int) {
    force != 1 && dest in node.table
  }

  lemma TurnSizes(ifs: seq<Iface>, node: Node, dest: Ip, force: int)
    ensures forall x :: 0 <= x < |ifs| ==>
              |Turn(ifs, node, dest, force, x)| == if dest in node.table then |ifs| else |ifs| * |ifs|
  {
    forall x | 0 <= x < |ifs|
      ensures |Turn(ifs, node, dest, force, x)| == if dest in node.table then |ifs| else |ifs| * |ifs|
    {
      PayloadExact(ifs, node, ifs[x].ip, dest, PayloadReq, " ", force);
    }
  }

  /** A request raises the broadcast id and, under the force flag, forgets the table.
      With a row for the target every interface's turn sends a payload request from its
      address out of every interface. */
  lemma RequestRouted(ifs: seq<Iface>, node: Node, dest: Ip, force: int, x: nat, j: nat)
    requires x < |ifs| && j < |ifs| && Routed(node, dest, force)
    ensures var (node', out) := Request(ifs, node, dest, force);
            && node' == Node(node.table, node.bid + 1)
            && |out| == |ifs| * |ifs| && At(x, |ifs|, j) < |out|
            && out[At(x, |ifs|, j)]
               == Frame(node.table[dest].nextHop, ifs[j].mac,
                        Header(ifs[x].ip, dest, node.table[dest].hop, node.bid + 1, PayloadReq, force, " "))
  {
    var node' := Request(ifs, node, dest, force).0;
    TurnSizes(ifs, node', dest, force);
    RequestBlock(ifs, |ifs|, node', dest, force, |ifs|, x);
    PayloadExact(ifs, node', ifs[x].ip, dest, PayloadReq, " ", force);
  }

  /** Without one every turn floods: for every own address and every interface a RREQ
      from that address out of that interface. */
  lemma RequestFloods(ifs: seq<Iface>, node: Node, dest: Ip, force: int, x: nat, i: nat, j: nat)
    requires x < |ifs| && i < |ifs| && j < |ifs| && !Routed(node, dest, force)
    ensures var (node', out) := Request(ifs, node, dest, force); var n := |ifs|;
            && node' == Node(if force == 1 then map[] else node.table, node.bid + 1)
            && |out| == n * (n * n) && At(x, n * n, At(i, n, j)) < |out|
            && out[At(x, n * n, At(i, n, j))]
               == Frame(0xffff_ffff_ffff, ifs[j].mac, Header(ifs[i].ip, dest, 1, node.bid + 1, Rreq, force, ""))
  {
    var node' := Request(ifs, node, dest, force).0;
    TurnSizes(ifs, node', dest, force);
    RequestBlock(ifs, |ifs|, node', dest, force, |ifs| * |ifs|, x);
    PayloadExact(ifs, node', ifs[x].ip, dest, PayloadReq, " ", force);
    AtFits(i, |ifs|, |ifs|, j);
    assert FloodedAt(ifs, Turn(ifs, node', dest, force, x), node'.bid, dest, force, i, j);
  }
}
