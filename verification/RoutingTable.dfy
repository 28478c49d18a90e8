/** The routing table of one ODR daemon (hw3/common.c).

The daemon keeps an array of 100 rows that it scans linearly.  `Table` is that
array, updated in place.  `Contents` is its meaning: a finite map from source
addresses to rows.  Every method is proved against the map.
*/
module RoutingTable {

  type Ip = string
  type Mac = nat

  const ROUTING_TABLE_SIZE: nat := 100

  /** One array slot.  A slot that `init_routing_table` cleared is `BLANK`. */
  datatype Cell = Cell(destIp: Ip, nextHop: Mac, hop: int, ts: nat, bid: int, filled: bool)

  const BLANK: Cell := Cell("", 0, 0, 0, 0, false)

  /** What a filled slot says about its address. `ts` is the creation time. */
  datatype Row = Row(nextHop: Mac, hop: int, ts: nat, bid: int)

  function ToRow(c: Cell): Row {
    Row(c.nextHop, c.hop, c.ts, c.bid)
  }

  /** Slots are either blank, or filled with an address no other slot holds. */
  ghost predicate WellFormed(cells: seq<Cell>) {
    && (forall i :: 0 <= i < |cells| ==> (cells[i].filled && cells[i].destIp != "") || cells[i] == BLANK)
    && (forall i, j :: 0 <= i < j < |cells| && cells[i].filled && cells[j].filled ==>
          cells[i].destIp != cells[j].destIp)
  }

  function Contents(cells: seq<Cell>): map<Ip, Row> {
    if cells == [] then map[]
    else
      var n := |cells| - 1;
      var init := Contents(cells[..n]);
      if cells[n].filled then init[cells[n].destIp := ToRow(cells[n])] else init
  }

  /** The map holds exactly the filled slots. */
  lemma {:induction false} ContentsExact(cells: seq<Cell>)
    requires WellFormed(cells)
    ensures forall i :: 0 <= i < |cells| && cells[i].filled ==>
              cells[i].destIp in Contents(cells) && Contents(cells)[cells[i].destIp] == ToRow(cells[i])
    ensures forall ip :: ip in Contents(cells) ==>
              exists i :: 0 <= i < |cells| && cells[i].filled && cells[i].destIp == ip
  {
    if cells != [] {
      var n := |cells| - 1;
      var init := cells[..n];
      ContentsExact(init);
      forall i | 0 <= i < |cells| && cells[i].filled
        ensures cells[i].destIp in Contents(cells) && Contents(cells)[cells[i].destIp] == ToRow(cells[i])
      {
        if i < n { assert init[i] == cells[i]; }
      }
      forall ip | ip in Contents(cells)
        ensures exists i :: 0 <= i < |cells| && cells[i].filled && cells[i].destIp == ip
      {
        if ip in Contents(init) {
          var i :| 0 <= i < |init| && init[i].filled && init[i].destIp == ip;
          assert cells[i].destIp == ip;
        }
      }
    }
  }

  /** `should_update_rt`, on the map. */
  predicate ShouldUpdate(t: map<Ip, Row>, src: Ip, hop: int, bid: int) {
    src !in t || bid > t[src].bid || t[src].hop > hop
  }

  /** `update_routing_table`, on the map.  The next hop and the creation time are
      written once, when the row appears, and a newer broadcast id hides a lower
      hop count carried by the same frame. */
  function Learn(t: map<Ip, Row>, src: Ip, hop: int, bid: int, via: Mac, now: nat): map<Ip, Row> {
    if src !in t then t[src := Row(via, hop, now, bid)]
    else if bid > t[src].bid then t[src := t[src].(bid := bid)]
    else if t[src].hop > hop then t[src := t[src].(hop := hop)]
    else t
  }

  /** The update test is exact: it holds precisely when learning changes the table. */
  lemma ShouldUpdateIffChanged(t: map<Ip, Row>, src: Ip, hop: int, bid: int, via: Mac, now: nat)
    ensures ShouldUpdate(t, src, hop, bid) <==> Learn(t, src, hop, bid, via, now) != t
  {
    var t' := Learn(t, src, hop, bid, via, now);
    assert src in t';
    if src in t {
      assert ShouldUpdate(t, src, hop, bid) ==> t'[src] != t[src];
    }
  }

  /** One control frame about an address, as the table sees it. */
  datatype Report = Report(hop: int, bid: int, via: Mac, now: nat)

  function LearnAll(t: map<Ip, Row>, src: Ip, rs: seq<Report>): map<Ip, Row> {
    if rs == [] then t
    else
      var r := rs[|rs| - 1];
      Learn(LearnAll(t, src, rs[..|rs| - 1]), src, r.hop, r.bid, r.via, r.now)
  }

  /** Report `i` carries a higher broadcast id than every report before it. */
  ghost predicate Raises(rs: seq<Report>, i: int) {
    0 < i < |rs| && forall j :: 0 <= j < i ==> rs[j].bid < rs[i].bid
  }

  /** What the row for `src` is after the reports `rs`, in terms of the reports alone:
      the next hop and time of the first, the highest broadcast id of all, and the
      lowest hop count among those that did not raise the broadcast id. */
  ghost predicate Summarises(row: Row, rs: seq<Report>) {
    && rs != [] && row.nextHop == rs[0].via && row.ts == rs[0].now
    && (forall i :: 0 <= i < |rs| ==> rs[i].bid <= row.bid)
    && (exists i :: 0 <= i < |rs| && rs[i].bid == row.bid)
    && (forall i :: 0 <= i < |rs| && !Raises(rs, i) ==> row.hop <= rs[i].hop)
    && (exists i :: 0 <= i < |rs| && !Raises(rs, i) && rs[i].hop == row.hop)
  }

  lemma SummaryStep(row: Row, rs: seq<Report>, r: Report)
    requires Summarises(row, rs)
    ensures Summarises(if r.bid > row.bid then row.(bid := r.bid)
                       else if row.hop > r.hop then row.(hop := r.hop)
                       else row,
                       rs + [r])
  {
    var all, n := rs + [r], |rs|;
    assert all[n] == r;
    assert forall i :: 0 <= i < n ==> all[i] == rs[i] && (Raises(all, i) <==> Raises(rs, i));
    var top :| 0 <= top < n && rs[top].bid == row.bid;
    assert all[top] == rs[top];
    assert Raises(all, n) <==> r.bid > row.bid by {
      if Raises(all, n) { assert all[top].bid < all[n].bid; }
    }
    var low :| 0 <= low < n && !Raises(rs, low) && rs[low].hop == row.hop;
    assert all[low] == rs[low] && !Raises(all, low);
  }

  lemma FirstReport(r: Report)
    ensures Summarises(Row(r.via, r.hop, r.now, r.bid), [r])
  {
    assert [r][0] == r && !Raises([r], 0);
  }

  /** After any reports about an address its row is their summary. */
  lemma {:induction false} LearnAllSummarises(t: map<Ip, Row>, src: Ip, rs: seq<Report>)
    requires src !in t && rs != []
    ensures src in LearnAll(t, src, rs) && Summarises(LearnAll(t, src, rs)[src], rs)
  {
    var n := |rs| - 1;
    var before := LearnAll(t, src, rs[..n]);
    assert rs == rs[..n] + [rs[n]];
    if n == 0 {
      FirstReport(rs[0]);
    } else {
      LearnAllSummarises(t, src, rs[..n]);
      SummaryStep(before[src], rs[..n], rs[n]);
    }
  }

  lemma {:induction false} LearnAllElsewhere(t: map<Ip, Row>, src: Ip, rs: seq<Report>, a: Ip)
    requires a != src
    ensures a in LearnAll(t, src, rs) <==> a in t
    ensures a in t ==> LearnAll(t, src, rs)[a] == t[a]
  {
    if rs != [] { LearnAllElsewhere(t, src, rs[..|rs| - 1], a); }
  }

  function FilledCount(cells: seq<Cell>): (n: nat)
    ensures n <= |cells|
    ensures n == |cells| <==> forall i :: 0 <= i < |cells| ==> cells[i].filled
  {
    if cells == [] then 0
    else
      var n := |cells| - 1;
      assert forall i :: 0 <= i < n ==> cells[..n][i] == cells[i];
      FilledCount(cells[..n]) + (if cells[n].filled then 1 else 0)
  }

  /** Filled slots and addresses are in bijection. */
  lemma {:induction false} ContentsSize(cells: seq<Cell>)
    requires WellFormed(cells)
    ensures |Contents(cells)| == FilledCount(cells)
  {
    if cells != [] {
      var n := |cells| - 1;
      ContentsSize(cells[..n]);
      ContentsExact(cells[..n]);
      assert cells[n].filled ==> cells[n].destIp !in Contents(cells[..n]);
    }
  }

  /** A slot holding `ip` determines the map's row for `ip`; no slot, no row. */
  lemma SlotDecides(cells: seq<Cell>, ip: Ip, i: int)
    requires WellFormed(cells)
    requires ip != ""
    requires i == -1 || (0 <= i < |cells| && cells[i].destIp == ip)
    requires i == -1 ==> forall j :: 0 <= j < |cells| ==> cells[j].destIp != ip
    ensures (i != -1) <==> ip in Contents(cells)
    ensures i != -1 ==> cells[i].filled && Contents(cells)[ip] == ToRow(cells[i])
  {
    ContentsExact(cells);
  }

  class Table {
    const rows: array<Cell>

    ghost predicate Valid()
      reads this, rows
    {
      rows.Length == ROUTING_TABLE_SIZE && WellFormed(rows[..])
    }

    ghost function View(): map<Ip, Row>
      reads this, rows
    {
      Contents(rows[..])
    }

    constructor ()
      ensures Valid() && fresh(rows)
      ensures View() == map[]
    {
      rows := new Cell[ROUTING_TABLE_SIZE](_ => BLANK);
      new;
      AllBlank(rows[..]);
    }

    /** `init_routing_table`: whatever the array held, every row is forgotten. */
    method Clear()
      requires rows.Length == ROUTING_TABLE_SIZE
      modifies rows
      ensures Valid()
      ensures View() == map[]
    {
      for i := 0 to ROUTING_TABLE_SIZE
        invariant forall j :: 0 <= j < i ==> rows[j] == BLANK
      {
        rows[i] := BLANK;
      }
      AllBlank(rows[..]);
    }

    /** `get_row_entry`: the first slot with this address.  The comparison ignores
        `is_filled`, so the empty address matches the first blank slot. */
    method GetRowEntry(ip: Ip) returns (index: int)
      requires Valid()
      ensures -1 <= index < ROUTING_TABLE_SIZE
      ensures index == -1 ==> forall j :: 0 <= j < rows.Length ==> rows[j].destIp != ip
      ensures index != -1 ==> rows[index].destIp == ip && forall j :: 0 <= j < index ==> rows[j].destIp != ip
      ensures ip != "" ==> ((index != -1) <==> ip in View())
      ensures ip != "" && index != -1 ==> View()[ip] == ToRow(rows[index])
    {
      index := -1;
      for i := 0 to ROUTING_TABLE_SIZE
        invariant forall j :: 0 <= j < i ==> rows[j].destIp != ip
      {
        if rows[i].destIp == ip {
          index := i;
          break;
        }
      }
      if ip != "" { SlotDecides(rows[..], ip, index); }
    }

    /** `get_empty_row`: the first unfilled slot, or 100 when there is none. */
    method GetEmptyRow() returns (index: nat)
      requires Valid()
      ensures index <= ROUTING_TABLE_SIZE
      ensures index < ROUTING_TABLE_SIZE ==> !rows[index].filled
      ensures forall j :: 0 <= j < index ==> rows[j].filled
      ensures index == ROUTING_TABLE_SIZE <==> |View()| == ROUTING_TABLE_SIZE
    {
      index := 0;
      while index < ROUTING_TABLE_SIZE && rows[index].filled
        invariant index <= ROUTING_TABLE_SIZE
        invariant forall j :: 0 <= j < index ==> rows[j].filled
      {
        index := index + 1;
      }
      ContentsSize(rows[..]);
    }

    /** `should_update_rt`, which only reads the table. */
    method ShouldUpdateRt(src: Ip, hop: int, bid: int) returns (yes: bool)
      requires Valid()
      requires src != ""
      ensures yes == ShouldUpdate(View(), src, hop, bid)
    {
      var index := GetRowEntry(src);
      if index == -1 { return true; }
      if bid > rows[index].bid { return true; }
      if rows[index].hop > hop { return true; }
      return false;
    }

    /** `update_routing_table`.  With a full table the source writes past the array,
        so a new address needs a free slot. */
    method Update(src: Ip, hop: int, bid: int, via: Mac, now: nat)
      requires Valid()
      requires src != ""
      requires src in View() || |View()| < ROUTING_TABLE_SIZE
      modifies rows
      ensures Valid()
      ensures View() == Learn(old(View()), src, hop, bid, via, now)
    {
      var index := GetRowEntry(src);
      ghost var before := rows[..];
      if index == -1 {
        var free := GetEmptyRow();
        rows[free] := Cell(src, via, hop, now, bid, true);
        WriteSlot(before, free, rows[free]);
        assert rows[..] == before[free := rows[free]];
      } else {
        if bid > rows[index].bid {
          rows[index] := rows[index].(bid := bid);
        } else {
          if rows[index].hop > hop {
            rows[index] := rows[index].(hop := hop);
          }
        }
        WriteSlot(before, index, rows[index]);
        ContentsExact(before);
        assert rows[..] == before[index := rows[index]];
      }
    }
  }

  lemma AllBlank(cells: seq<Cell>)
    requires forall i :: 0 <= i < |cells| ==> cells[i] == BLANK
    ensures WellFormed(cells) && Contents(cells) == map[]
  {
    ContentsExact(cells);
  }

  /** Writing a blank slot, or rewriting the slot of the same address, is a map update. */
  lemma WriteSlot(cells: seq<Cell>, at: nat, c: Cell)
    requires WellFormed(cells)
    requires at < |cells|
    requires c.filled && c.destIp != ""
    requires forall j :: 0 <= j < |cells| && cells[j].destIp == c.destIp ==> j == at
    requires cells[at] == BLANK || cells[at].destIp == c.destIp
    ensures WellFormed(cells[at := c])
    ensures Contents(cells[at := c]) == Contents(cells)[c.destIp := ToRow(c)]
  {
    var cells' := cells[at := c];
    forall ip
      ensures ip in Contents(cells') <==> ip in Contents(cells)[c.destIp := ToRow(c)]
      ensures ip in Contents(cells') ==> Contents(cells')[ip] == Contents(cells)[c.destIp := ToRow(c)][ip]
    {
      WriteSlotAt(cells, at, c, ip);
    }
  }

  lemma WriteSlotAt(cells: seq<Cell>, at: nat, c: Cell, ip: Ip)
    requires WellFormed(cells) && at < |cells| && WellFormed(cells[at := c])
    requires c.filled && c.destIp != ""
    requires forall j :: 0 <= j < |cells| && cells[j].destIp == c.destIp ==> j == at
    requires cells[at] == BLANK || cells[at].destIp == c.destIp
    ensures var m, m' := Contents(cells)[c.destIp := ToRow(c)], Contents(cells[at := c]);
            (ip in m' <==> ip in m) && (ip in m' ==> m'[ip] == m[ip])
  {
    var cells' := cells[at := c];
    ContentsExact(cells);
    ContentsExact(cells');
    if ip == c.destIp {
      assert cells'[at].destIp == ip;
    } else if ip in Contents(cells) {
      var i :| 0 <= i < |cells| && cells[i].filled && cells[i].destIp == ip;
      assert cells'[i] == cells[i];
    }
  }
}
