/** Filling in socket types and ports (unpv13e/libgai: ga_port, ga_clone, ga_serv).

`ga_port` walks a linked list and splices copies into it as it goes. `AddrInfo`
is that list on the heap; `Entry` is one element's value. Every copy takes two
allocations, and `allocs` says for each copy in turn which of them succeed.
*/
module AddrInfoList {
  import opened Basics

  const SOCK_STREAM: int := 1
  const SOCK_DGRAM: int := 2

  datatype Family = Inet | Inet6 | Local

  /** `clone` is the AI_CLONE flag. */
  datatype Entry = Entry(clone: bool, family: Family, socktype: int, port: int, addr: string)

  // ---- On values ----

  /** Set the socket type, and the port where the address has one. */
  function Stamp(e: Entry, socktype: int, port: int): Entry {
    e.(socktype := socktype, port := if e.family == Local then e.port else port)
  }

  /** What one entry becomes. */
  function PortOne(e: Entry, socktype: int, port: int): seq<Entry> {
    if e.clone then
      if e.socktype != 0 then [e, Stamp(e.(clone := false), socktype, port)] else [Stamp(e, socktype, port)]
    else if e.socktype != socktype then [e]
    else [Stamp(e, socktype, port)]
  }

  function PortAll(es: seq<Entry>, socktype: int, port: int): seq<Entry> {
    if es == [] then [] else PortAll(es[..|es| - 1], socktype, port) + PortOne(es[|es| - 1], socktype, port)
  }

  function FoundOne(e: Entry, socktype: int): nat {
    if (e.clone || e.socktype == socktype) && e.family != Local then 1 else 0
  }

  function Found(es: seq<Entry>, socktype: int): nat {
    if es == [] then 0 else Found(es[..|es| - 1], socktype) + FoundOne(es[|es| - 1], socktype)
  }

  // ---- Allocation ----

  /** The two allocations of one copy: both succeed, or the first or the second fails. */
  datatype Alloc = Whole | NoEntry | NoAddress

  predicate NeedsCopy(e: Entry) {
    e.clone && e.socktype != 0
  }

  function CopyCount(es: seq<Entry>): nat {
    if es == [] then 0 else CopyCount(es[..|es| - 1]) + if NeedsCopy(es[|es| - 1]) then 1 else 0
  }

  /** A copy without its address, as it stays in the list when the second allocation fails. */
  function Half(e: Entry): Entry {
    Entry(false, e.family, e.socktype, 0, "")
  }

  /** What an entry that could not be copied leaves. */
  function Broken(e: Entry, alloc: Alloc): seq<Entry> {
    if alloc == NoAddress then [e, Half(e)] else [e]
  }

  predicate FailsAt(e: Entry, alloc: Alloc) {
    NeedsCopy(e) && alloc != Whole
  }

  /** The first entry from `i` on whose copy fails, or the end; `used` copies were made before. */
  function FailFrom(es: seq<Entry>, allocs: nat -> Alloc, used: nat, i: nat): (k: nat)
    requires i <= |es|
    ensures i <= k <= |es|
    decreases |es| - i
  {
    if i == |es| || FailsAt(es[i], allocs(used + CopyCount(es[..i]))) then i else FailFrom(es, allocs, used, i + 1)
  }

  /** The list when the copy of entry `k` fails: the walk ends there. */
  function BrokenOff(es: seq<Entry>, k: nat, socktype: int, port: int, alloc: Alloc): seq<Entry>
    requires k < |es|
  {
    PortAll(es[..k], socktype, port) + Broken(es[k], alloc) + es[k + 1..]
  }

  // ---- On the heap ----

  class AddrInfo {
    var next: AddrInfo?
    var clone: bool
    var family: Family
    var socktype: int
    var port: int
    var addr: string

    ghost function Value(): Entry
      reads this
    {
      Entry(clone, family, socktype, port, addr)
    }

    /** The copy made by `ga_clone`: same address, AI_CLONE off. */
    constructor Copy(ai: AddrInfo)
      ensures next == ai.next && Value() == ai.Value().(clone := false)
    {
      next := ai.next;
      clone := false;
      family, socktype, port, addr := ai.family, ai.socktype, ai.port, ai.addr;
    }

    /** The same with no room for the address. */
    constructor CopyHalf(ai: AddrInfo)
      ensures next == ai.next && Value() == Half(ai.Value())
    {
      next := ai.next;
      clone := false;
      family, socktype, port, addr := ai.family, ai.socktype, 0, "";
    }

    method SetPort(socktype: int, port: int) returns (found: nat)
      modifies this`socktype, this`port
      ensures Value() == Stamp(old(Value()), socktype, port)
      ensures found == if family == Local then 0 else 1
    {
      this.socktype := socktype;
      found := 0;
      if family != Local {
        this.port := port;
        found := 1;
      }
    }
  }

  /** The node behind node `i`, if any. */
  ghost function Behind(nodes: seq<AddrInfo>, i: nat): AddrInfo? {
    if i + 1 < |nodes| then nodes[i + 1] else null
  }

  /** `nodes` are the list from `head`, in order. */
  ghost predicate IsList(head: AddrInfo?, nodes: seq<AddrInfo>)
    reads nodes`next
  {
    && head == (if nodes == [] then null else nodes[0])
    && (forall i, j :: 0 <= i < j < |nodes| ==> nodes[i] != nodes[j])
    && (forall i :: 0 <= i < |nodes| ==> nodes[i].next == Behind(nodes, i))
  }

  /** The list's values, in order. */
  ghost predicate Shows(nodes: seq<AddrInfo>, es: seq<Entry>)
    reads nodes
  {
    |nodes| == |es| && forall i :: 0 <= i < |nodes| ==> nodes[i].Value() == es[i]
  }

  /** Every node of the list is one of these objects. */
  ghost predicate Within(nodes: seq<AddrInfo>, owned: set<AddrInfo>) {
    forall i :: 0 <= i < |nodes| ==> nodes[i] in owned
  }

  ghost function Spliced(nodes: seq<AddrInfo>, k: nat, copy: AddrInfo): seq<AddrInfo>
    requires k < |nodes|
  {
    nodes[..k + 1] + [copy] + nodes[k + 1..]
  }

  lemma SplicedAt(nodes: seq<AddrInfo>, k: nat, copy: AddrInfo, i: nat)
    requires k < |nodes| && i <= |nodes|
    ensures var l := Spliced(nodes, k, copy);
            && (i < k ==> l[i] == nodes[i] && Behind(l, i) == Behind(nodes, i))
            && (i == k ==> l[i] == nodes[k] && Behind(l, i) == copy)
            && (i == k + 1 ==> l[i] == copy && Behind(l, i) == Behind(nodes, k))
            && (i > k + 1 ==> l[i] == nodes[i - 1] && Behind(l, i) == Behind(nodes, i - 1))
  {
  }

  lemma SplicedDistinct(nodes: seq<AddrInfo>, k: nat, copy: AddrInfo)
    requires k < |nodes| && forall i, j :: 0 <= i < j < |nodes| ==> nodes[i] != nodes[j]
    requires forall i :: 0 <= i < |nodes| ==> nodes[i] != copy
    ensures var l := Spliced(nodes, k, copy); forall i, j :: 0 <= i < j < |l| ==> l[i] != l[j]
  {
    var l := Spliced(nodes, k, copy);
    forall i, j | 0 <= i < j < |l| ensures l[i] != l[j] {
      SplicedAt(nodes, k, copy, i);
      SplicedAt(nodes, k, copy, j);
    }
  }

  /** A new entry that continues as entry `k` does goes in behind it. */
  method SpliceIn(ai: AddrInfo, copy: AddrInfo, head: AddrInfo?, ghost nodes: seq<AddrInfo>, ghost k: nat)
    requires IsList(head, nodes) && k < |nodes| && nodes[k] == ai
    requires copy.next == ai.next && forall i :: 0 <= i < |nodes| ==> nodes[i] != copy
    modifies ai`next
    ensures IsList(head, Spliced(nodes, k, copy))
  {
    ai.next := copy;
    ghost var spliced := Spliced(nodes, k, copy);
    SplicedDistinct(nodes, k, copy);
    forall i | 0 <= i < |spliced| ensures spliced[i].next == Behind(spliced, i) {
      SplicedAt(nodes, k, copy, i);
      if i < k {
        assert nodes[i].next == old(nodes[i].next);
      } else if i > k + 1 {
        assert nodes[i - 1].next == old(nodes[i - 1].next);
      } else {
        assert old(nodes[k].next) == Behind(nodes, k);
      }
    }
    SplicedAt(nodes, k, copy, 0);
  }

  /** `ga_clone`: splice a copy in after entry `k`. Without memory for the entry nothing
      happens; without memory for its address the half-made copy is in the list. */
  method GaClone(ai: AddrInfo, head: AddrInfo?, ghost nodes: seq<AddrInfo>, ghost k: nat, alloc: Alloc)
    returns (copy: AddrInfo?, ghost added: AddrInfo?)
    requires IsList(head, nodes) && k < |nodes| && nodes[k] == ai
    modifies ai
    ensures ai.Value() == old(ai.Value())
    ensures added == null <==> alloc == NoEntry
    ensures alloc == NoEntry ==> IsList(head, nodes)
    ensures added != null ==> fresh(added) && IsList(head, Spliced(nodes, k, added))
    ensures copy == (if alloc == Whole then added else null)
    ensures alloc == Whole ==> added.Value() == ai.Value().(clone := false)
    ensures alloc == NoAddress ==> added.Value() == Half(ai.Value())
  {
    copy, added := null, null;
    if alloc == NoEntry { return; }
    if alloc == NoAddress {
      var half := new AddrInfo.CopyHalf(ai);
      SpliceIn(ai, half, head, nodes, k);
      added := half;
      return;
    }
    var whole := new AddrInfo.Copy(ai);
    SpliceIn(ai, whole, head, nodes, k);
    copy, added := whole, whole;
  }

  /** A turn at any other entry. */
  method VisitPlain(ai: AddrInfo, port: int, socktype: int) returns (found: nat)
    requires !(ai.clone && ai.socktype != 0)
    modifies ai`socktype, ai`port
    ensures [ai.Value()] == PortOne(old(ai.Value()), socktype, port)
    ensures found == FoundOne(old(ai.Value()), socktype)
  {
    found := 0;
    if ai.clone || ai.socktype == socktype {
      found := ai.SetPort(socktype, port);
    }
  }

  /** Replacing entry `k`'s node by a piece replaces its value by the piece's. */
  lemma SpliceShows(nodes: seq<AddrInfo>, k: nat, piece: seq<AddrInfo>, es: seq<Entry>, one: seq<Entry>)
    requires k < |nodes| == |es| && Shows(piece, one)
    requires forall i :: 0 <= i < |nodes| && i != k ==> nodes[i].Value() == es[i]
    ensures Shows(nodes[..k] + piece + nodes[k + 1..], es[..k] + one + es[k + 1..])
  {
  }

  lemma CopyShows(nodes: seq<AddrInfo>, k: nat, copy: AddrInfo, es: seq<Entry>)
    requires k < |nodes| && Shows(nodes, es)
    ensures Shows(Spliced(nodes, k, copy), es[..k] + [es[k], copy.Value()] + es[k + 1..])
  {
    assert Shows([nodes[k], copy], [es[k], copy.Value()]);
    assert Spliced(nodes, k, copy) == nodes[..k] + [nodes[k], copy] + nodes[k + 1..];
    SpliceShows(nodes, k, [nodes[k], copy], es, [es[k], copy.Value()]);
  }

  /** The list with entry `k` visited: `after` shows `PortOne` in its place, and the
      walk goes on at position `k'`. */
  ghost predicate Visited(head: AddrInfo?, after: seq<AddrInfo>, es: seq<Entry>, k: nat, k': nat, next: AddrInfo?,
                          port: int, socktype: int)
    requires k < |es|
    reads after
  {
    && IsList(head, after)
    && Shows(after, es[..k] + PortOne(es[k], socktype, port) + es[k + 1..])
    && k' == k + |PortOne(es[k], socktype, port)|
    && next == (if k' < |after| then after[k'] else null)
  }

  /** The list when entry `k` could not be copied. */
  ghost predicate Stopped(head: AddrInfo?, after: seq<AddrInfo>, es: seq<Entry>, k: nat, alloc: Alloc)
    requires k < |es|
    reads after
  {
    IsList(head, after) && Shows(after, es[..k] + Broken(es[k], alloc) + es[k + 1..])
  }

  /** A turn of `ga_port`'s walk at an entry that must be copied first. */
  method VisitClone(ai: AddrInfo, head: AddrInfo?, ghost nodes: seq<AddrInfo>, ghost k: nat, port: int, socktype: int)
    returns (last: AddrInfo, found: nat)
    requires IsList(head, nodes) && k < |nodes| && nodes[k] == ai && NeedsCopy(ai.Value())
    modifies ai
    ensures fresh(last) && IsList(head, Spliced(nodes, k, last))
    ensures ai.Value() == old(ai.Value())
    ensures last.Value() == Stamp(old(ai.Value()).(clone := false), socktype, port)
    ensures found == FoundOne(old(ai.Value()), socktype)
  {
    var copy;
    ghost var added;
    copy, added := GaClone(ai, head, nodes, k, Whole);
    last := copy;
    found := last.SetPort(socktype, port);
  }

  method TurnClone(ai: AddrInfo, head: AddrInfo?, ghost nodes: seq<AddrInfo>, ghost es: seq<Entry>, ghost k: nat,
                   port: int, socktype: int)
    returns (copy: AddrInfo, found: nat)
    requires IsList(head, nodes) && Shows(nodes, es) && k < |nodes| && nodes[k] == ai && NeedsCopy(es[k])
    modifies ai
    ensures fresh(copy) && Visited(head, Spliced(nodes, k, copy), es, k, k + 2, copy.next, port, socktype)
    ensures found == FoundOne(es[k], socktype)
  {
    copy, found := VisitClone(ai, head, nodes, k, port, socktype);
    CopyShows(nodes, k, copy, es);
    SplicedAt(nodes, k, copy, k + 1);
  }

  /** The same when memory runs out. */
  method StopClone(ai: AddrInfo, head: AddrInfo?, ghost nodes: seq<AddrInfo>, ghost es: seq<Entry>, ghost k: nat,
                   ghost owned: set<AddrInfo>, alloc: Alloc)
    returns (ghost after: seq<AddrInfo>, ghost owned': set<AddrInfo>)
    requires IsList(head, nodes) && Shows(nodes, es) && Within(nodes, owned) && k < |nodes| && nodes[k] == ai
    requires alloc != Whole
    modifies ai
    ensures Within(after, owned') && forall n :: n in owned' ==> n in owned || fresh(n)
    ensures Stopped(head, after, es, k, alloc)
  {
    var copy;
    ghost var added;
    copy, added := GaClone(ai, head, nodes, k, alloc);
    after, owned' := nodes, owned;
    if added != null {
      after, owned' := Spliced(nodes, k, added), owned + {added};
      SplicedWithin(nodes, k, added, owned);
      StillShows(nodes, es, k);
      CopyShows(nodes, k, added, es);
    } else {
      StillShows(nodes, es, k);
    }
  }

  lemma StillShows(nodes: seq<AddrInfo>, es: seq<Entry>, k: nat)
    requires k < |nodes| == |es| && nodes[k].Value() == es[k]
    requires forall i :: 0 <= i < |nodes| && i != k ==> nodes[i].Value() == es[i]
    ensures Shows(nodes, es) && es == es[..k] + [es[k]] + es[k + 1..]
  {
  }

  method TurnPlain(ai: AddrInfo, head: AddrInfo?, ghost nodes: seq<AddrInfo>, ghost es: seq<Entry>, ghost k: nat,
                   port: int, socktype: int)
    returns (found: nat)
    requires IsList(head, nodes) && Shows(nodes, es) && k < |nodes| && nodes[k] == ai && !(ai.clone && ai.socktype != 0)
    modifies ai`socktype, ai`port
    ensures Visited(head, nodes, es, k, k + 1, ai.next, port, socktype)
    ensures found == FoundOne(es[k], socktype)
  {
    found := VisitPlain(ai, port, socktype);
    assert nodes == nodes[..k] + [ai] + nodes[k + 1..];
    SpliceShows(nodes, k, [ai], es, PortOne(es[k], socktype, port));
  }

  lemma SplicedWithin(nodes: seq<AddrInfo>, k: nat, copy: AddrInfo, owned: set<AddrInfo>)
    requires k < |nodes| && Within(nodes, owned)
    ensures Within(Spliced(nodes, k, copy), owned + {copy})
  {
  }

  /** One turn of the walk, whichever kind. */
  method VisitAt(ai: AddrInfo, head: AddrInfo?, ghost nodes: seq<AddrInfo>, ghost es: seq<Entry>, ghost k: nat,
                 ghost owned: set<AddrInfo>, port: int, socktype: int, alloc: Alloc)
    returns (next: AddrInfo?, found: nat, failed: bool, ghost after: seq<AddrInfo>, ghost k': nat,
             ghost owned': set<AddrInfo>)
    requires IsList(head, nodes) && Shows(nodes, es) && Within(nodes, owned) && k < |nodes| && nodes[k] == ai
    modifies ai
    ensures Within(after, owned') && forall n :: n in owned' ==> n in owned || fresh(n)
    ensures failed <==> FailsAt(es[k], alloc)
    ensures !failed ==> Visited(head, after, es, k, k', next, port, socktype) && found == FoundOne(es[k], socktype)
    ensures failed ==> Stopped(head, after, es, k, alloc)
  {
    failed := false;
    if ai.clone && ai.socktype != 0 && alloc != Whole {
      after, owned' := StopClone(ai, head, nodes, es, k, owned, alloc);
      next, found, failed, k' := null, 0, true, k;
    } else if ai.clone && ai.socktype != 0 {
      var copy;
      copy, found := TurnClone(ai, head, nodes, es, k, port, socktype);
      after, owned', k', next := Spliced(nodes, k, copy), owned + {copy}, k + 2, copy.next;
      SplicedWithin(nodes, k, copy, owned);
    } else {
      found := TurnPlain(ai, head, nodes, es, k, port, socktype);
      after, owned', k', next := nodes, owned, k + 1, ai.next;
    }
  }

  /** What the walk has made of the first `k` entries, the rest untouched. */
  function PortedTo(es: seq<Entry>, k: nat, socktype: int, port: int): seq<Entry>
    requires k <= |es|
  {
    PortAll(es[..k], socktype, port) + es[k..]
  }

  /** The walk stands at position `d` of the list, `k` original entries behind it. */
  ghost predicate AtEntry(es: seq<Entry>, k: nat, socktype: int, port: int, now: seq<Entry>, d: nat) {
    k <= |es| && now == PortedTo(es, k, socktype, port) && d == |PortAll(es[..k], socktype, port)|
  }

  lemma AtFirst(es: seq<Entry>, socktype: int, port: int)
    ensures AtEntry(es, 0, socktype, port, es, 0) && Found(es[..0], socktype) == 0
  {
    assert es[..0] == [] && es[0..] == es;
  }

  lemma AtLast(es: seq<Entry>, k: nat, socktype: int, port: int, now: seq<Entry>, d: nat)
    requires AtEntry(es, k, socktype, port, now, d) && d >= |now|
    ensures now == PortAll(es, socktype, port) && es[..k] == es
  {
    assert es[..|es|] == es && es[|es|..] == [];
  }

  lemma AtNext(es: seq<Entry>, k: nat, socktype: int, port: int, now: seq<Entry>, d: nat)
    requires AtEntry(es, k, socktype, port, now, d) && d < |now|
    ensures k < |es| && now[d] == es[k]
    ensures AtEntry(es, k + 1, socktype, port, now[..d] + PortOne(now[d], socktype, port) + now[d + 1..],
                    d + |PortOne(now[d], socktype, port)|)
    ensures Found(es[..k + 1], socktype) == Found(es[..k], socktype) + FoundOne(now[d], socktype)
  {
    assert es[..k + 1][..k] == es[..k];
  }

  /** The walk's whole state: the list so far, and where it stands. */
  ghost predicate Walking(head: AddrInfo?, nodes: seq<AddrInfo>, ai: AddrInfo?, es: seq<Entry>, k: nat,
                          now: seq<Entry>, d: nat,
                          port: int, socktype: int)
    reads nodes
  {
    && IsList(head, nodes) && Shows(nodes, now) && AtEntry(es, k, socktype, port, now, d)
    && ai == (if d < |nodes| then nodes[d] else null)
  }

  lemma StoppedHere(es: seq<Entry>, k: nat, socktype: int, port: int, now: seq<Entry>, d: nat, alloc: Alloc)
    requires AtEntry(es, k, socktype, port, now, d) && d < |now|
    ensures k < |es| && now[d] == es[k]
    ensures now[..d] + Broken(now[d], alloc) + now[d + 1..] == BrokenOff(es, k, socktype, port, alloc)
  {
  }

  method WalkTurn(ai: AddrInfo, head: AddrInfo?, ghost nodes: seq<AddrInfo>, ghost es: seq<Entry>, ghost k: nat,
                  ghost now: seq<Entry>, ghost d: nat, ghost owned: set<AddrInfo>, port: int, socktype: int,
                  alloc: Alloc)
    returns (next: AddrInfo?, found: nat, failed: bool, copied: nat, ghost after: seq<AddrInfo>,
             ghost now': seq<Entry>, ghost d': nat, ghost owned': set<AddrInfo>)
    requires Walking(head, nodes, ai, es, k, now, d, port, socktype) && Within(nodes, owned)
    modifies ai
    ensures Within(after, owned') && forall n :: n in owned' ==> n in owned || fresh(n)
    ensures k < |es| && (failed <==> FailsAt(es[k], alloc))
    ensures copied == if NeedsCopy(es[k]) then 1 else 0
    ensures !failed ==>
              && Walking(head, after, next, es, k + 1, now', d', port, socktype)
              && Found(es[..k + 1], socktype) == Found(es[..k], socktype) + found
    ensures failed ==> Halted(head, after, es, k, socktype, port, alloc)
  {
    AtNext(es, k, socktype, port, now, d);
    StoppedHere(es, k, socktype, port, now, d, alloc);
    now' := now[..d] + PortOne(now[d], socktype, port) + now[d + 1..];
    copied := if ai.clone && ai.socktype != 0 then 1 else 0;
    next, found, failed, after, d', owned' := VisitAt(ai, head, nodes, now, d, owned, port, socktype, alloc);
  }

  /** What the walk has counted over the first `k` entries, none of which failed. */
  ghost predicate Counted(es: seq<Entry>, k: nat, socktype: int, allocs: nat -> Alloc, used: nat, nfound: int,
                          used': nat) {
    && k <= |es| && nfound == Found(es[..k], socktype) && used' == used + CopyCount(es[..k])
    && FailFrom(es, allocs, used, 0) == FailFrom(es, allocs, used, k)
  }

  lemma CountedNext(es: seq<Entry>, k: nat, socktype: int, allocs: nat -> Alloc, used: nat, nfound: int, used': nat,
                    found: nat, copied: nat)
    requires Counted(es, k, socktype, allocs, used, nfound, used') && k < |es|
    requires copied == if NeedsCopy(es[k]) then 1 else 0
    requires Found(es[..k + 1], socktype) == Found(es[..k], socktype) + found
    ensures !FailsAt(es[k], allocs(used')) ==>
              Counted(es, k + 1, socktype, allocs, used, nfound + found, used' + copied)
  {
    assert es[..k + 1][..k] == es[..k];
  }

  lemma CountedFail(es: seq<Entry>, k: nat, socktype: int, allocs: nat -> Alloc, used: nat, nfound: int, used': nat)
    requires Counted(es, k, socktype, allocs, used, nfound, used') && k < |es| && FailsAt(es[k], allocs(used'))
    ensures FailFrom(es, allocs, used, 0) == k && used' == used + CopyCount(es[..k])
  {
  }

  /** What a call of `ga_port` leaves: every entry ported and counted, or, if some copy
      failed, -1 and the list broken off at the first such entry. */
  ghost predicate Ported(after: seq<AddrInfo>, es: seq<Entry>, socktype: int, port: int, allocs: nat -> Alloc,
                         used: nat, nfound: int, used': nat)
    reads after
  {
    var k := FailFrom(es, allocs, used, 0);
    if k == |es| then
      nfound == Found(es, socktype) && used' == used + CopyCount(es) && Shows(after, PortAll(es, socktype, port))
    else
      nfound == -1 && Shows(after, BrokenOff(es, k, socktype, port, allocs(used + CopyCount(es[..k]))))
  }

  /** The list broken off at entry `k`. */
  ghost predicate Halted(head: AddrInfo?, after: seq<AddrInfo>, es: seq<Entry>, k: nat, socktype: int, port: int,
                         alloc: Alloc)
    reads after
  {
    k < |es| && FailsAt(es[k], alloc) && IsList(head, after) && Shows(after, BrokenOff(es, k, socktype, port, alloc))
  }

  /** The loop of `ga_port`. It ends although the list grows under it: each turn leaves
      one original entry behind. */
  method Walk(head: AddrInfo?, ghost nodes: seq<AddrInfo>, ghost es: seq<Entry>, ghost owned: set<AddrInfo>,
              port: int, socktype: int, allocs: nat -> Alloc, used: nat)
    returns (nfound: nat, used': nat, failed: bool, ghost k: nat, ghost after: seq<AddrInfo>,
             ghost owned': set<AddrInfo>)
    requires IsList(head, nodes) && Shows(nodes, es) && Within(nodes, owned)
    modifies owned
    ensures Within(after, owned') && forall n :: n in owned' ==> n in owned || fresh(n)
    ensures Counted(es, k, socktype, allocs, used, nfound, used')
    ensures failed ==> Halted(head, after, es, k, socktype, port, allocs(used'))
    ensures !failed ==> es[..k] == es && IsList(head, after) && Shows(after, PortAll(es, socktype, port))
  {
    nfound, used', failed, k := 0, used, false, 0;
    after, owned' := nodes, owned;
    ghost var d: nat, now := 0, es;
    var ai := head;
    AtFirst(es, socktype, port);
    assert es[..0] == [];
    while ai != null
      invariant Walking(head, after, ai, es, k, now, d, port, socktype)
      invariant Within(after, owned') && forall n :: n in owned' ==> n in owned || fresh(n)
      invariant !failed && Counted(es, k, socktype, allocs, used, nfound, used')
      decreases |es| - k
    {
      var found, copied;
      ai, found, failed, copied, after, now, d, owned' :=
        WalkTurn(ai, head, after, es, k, now, d, owned', port, socktype, allocs(used'));
      if failed { return; }
      CountedNext(es, k, socktype, allocs, used, nfound, used', found, copied);
      nfound, used', k := nfound + found, used' + copied, k + 1;
    }
    AtLast(es, k, socktype, port, now, d);
  }

  lemma CountedAll(es: seq<Entry>, k: nat, socktype: int, allocs: nat -> Alloc, used: nat, nfound: int, used': nat)
    requires Counted(es, k, socktype, allocs, used, nfound, used') && es[..k] == es
    ensures FailFrom(es, allocs, used, 0) == |es| && nfound == Found(es, socktype) && used' == used + CopyCount(es)
  {
  }

  lemma HaltedPorted(head: AddrInfo?, after: seq<AddrInfo>, es: seq<Entry>, k: nat, socktype: int, port: int,
                     allocs: nat -> Alloc, used: nat, nfound: int, used': nat)
    requires Counted(es, k, socktype, allocs, used, nfound, used')
    requires Halted(head, after, es, k, socktype, port, allocs(used'))
    ensures Ported(after, es, socktype, port, allocs, used, -1, used')
  {
    CountedFail(es, k, socktype, allocs, used, nfound, used');
  }

  lemma WholePorted(after: seq<AddrInfo>, es: seq<Entry>, k: nat, socktype: int, port: int,
                    allocs: nat -> Alloc, used: nat, nfound: int, used': nat)
    requires Counted(es, k, socktype, allocs, used, nfound, used') && es[..k] == es
    requires Shows(after, PortAll(es, socktype, port))
    ensures Ported(after, es, socktype, port, allocs, used, nfound, used')
  {
    CountedAll(es, k, socktype, allocs, used, nfound, used');
  }

  /** `ga_port`, with `used` copies made before. */
  method GaPort(head: AddrInfo?, ghost nodes: seq<AddrInfo>, ghost es: seq<Entry>, ghost owned: set<AddrInfo>,
                port: int, socktype: int, allocs: nat -> Alloc, used: nat)
    returns (nfound: int, used': nat, ghost after: seq<AddrInfo>, ghost owned': set<AddrInfo>)
    requires IsList(head, nodes) && Shows(nodes, es) && Within(nodes, owned)
    modifies owned
    ensures IsList(head, after) && Within(after, owned') && forall n :: n in owned' ==> n in owned || fresh(n)
    ensures Ported(after, es, socktype, port, allocs, used, nfound, used')
  {
    var failed;
    ghost var k;
    nfound, used', failed, k, after, owned' := Walk(head, nodes, es, owned, port, socktype, allocs, used);
    if failed {
      HaltedPorted(head, after, es, k, socktype, port, allocs, used, nfound, used');
      nfound := -1;
    } else {
      WholePorted(after, es, k, socktype, port, allocs, used, nfound, used');
    }
  }

  /** A service string: a port number, or a name with the ports `getservbyname` knows
      it by under TCP and UDP. */
  datatype Service = Port(port: int) | Name(tcp: Option<int>, udp: Option<int>)

  /** The result of `ga_serv`: 0, or the error. */
  datatype Result = Ok | EaiNoname | EaiService | EaiMemory

  /** `ga_serv`. `hint` is the caller's socket type, 0 for any. */
  method GaServ(head: AddrInfo?, ghost nodes: seq<AddrInfo>, ghost es: seq<Entry>, ghost owned: set<AddrInfo>,
                serv: Service, hint: int, allocs: nat -> Alloc)
    returns (rc: Result, ghost after: seq<AddrInfo>)
    requires IsList(head, nodes) && Shows(nodes, es) && Within(nodes, owned)
    modifies owned
    ensures IsList(head, after)
    ensures rc == EaiMemory <==> FailsMany(es, ServCalls(hint, serv), allocs)
    ensures rc != EaiMemory ==>
              && Shows(after, PortMany(es, ServCalls(hint, serv)))
              && (rc == Ok <==> FoundMany(es, ServCalls(hint, serv)) > 0)
    ensures rc == EaiNoname ==> hint == 0
    ensures rc == EaiService ==> hint != 0
  {
    var nfound := 0;
    if serv.Port? && hint != 0 {
      var used;
      ghost var owned';
      nfound, used, after, owned' := GaCall(true, head, nodes, es, owned, Call(hint, serv.port), allocs, 0, []);
    } else if serv.Port? {
      nfound, after := GaBoth(true, true, head, nodes, es, owned, serv.port, serv.port, allocs);
    } else {
      var tcp, udp := 0, 0;
      if serv.tcp.Some? { tcp := serv.tcp.value; }
      if serv.udp.Some? { udp := serv.udp.value; }
      nfound, after := GaBoth((hint == 0 || hint == SOCK_STREAM) && serv.tcp.Some?,
                              (hint == 0 || hint == SOCK_DGRAM) && serv.udp.Some?,
                              head, nodes, es, owned, tcp, udp, allocs);
    }
    if nfound < 0 { return EaiMemory, after; }
    if nfound == 0 {
      return if hint == 0 then EaiNoname else EaiService, after;
    }
    rc := Ok;
  }

  /** One `ga_port` after the calls `cs`, if it is made at all; -1 if it fails. */
  method GaCall(made: bool, head: AddrInfo?, ghost nodes: seq<AddrInfo>, ghost es: seq<Entry>,
                ghost owned: set<AddrInfo>, c: Call, allocs: nat -> Alloc, used: nat, ghost cs: seq<Call>)
    returns (nfound: int, used': nat, ghost after: seq<AddrInfo>, ghost owned': set<AddrInfo>)
    requires IsList(head, nodes) && Shows(nodes, PortMany(es, cs)) && Within(nodes, owned)
    requires used == CopiesMany(es, cs) && !FailsMany(es, cs, allocs)
    modifies owned
    ensures IsList(head, after) && Within(after, owned') && forall n :: n in owned' ==> n in owned || fresh(n)
    ensures var all := cs + if made then [c] else [];
            && (nfound == -1 <==> FailsMany(es, all, allocs))
            && (nfound != -1 ==>
                  && Shows(after, PortMany(es, all)) && used' == CopiesMany(es, all)
                  && FoundMany(es, all) == FoundMany(es, cs) + nfound && nfound >= 0)
  {
    if made {
      nfound, used', after, owned' :=
        GaPort(head, nodes, PortMany(es, cs), owned, c.port, c.socktype, allocs, used);
      OneMoreCall(es, cs, c, allocs);
    } else {
      nfound, used', after, owned' := 0, used, nodes, owned;
      assert cs + [] == cs;
    }
  }

  /** A stream call, then a datagram call, each if it is made; -1 if one fails. */
  method GaBoth(stream: bool, dgram: bool, head: AddrInfo?, ghost nodes: seq<AddrInfo>, ghost es: seq<Entry>,
                ghost owned: set<AddrInfo>, tcp: int, udp: int, allocs: nat -> Alloc)
    returns (nfound: int, ghost after: seq<AddrInfo>)
    requires IsList(head, nodes) && Shows(nodes, es) && Within(nodes, owned)
    modifies owned
    ensures IsList(head, after)
    ensures var cs := BothCalls(stream, dgram, tcp, udp);
            && (nfound < 0 <==> FailsMany(es, cs, allocs))
            && (nfound >= 0 ==> nfound == FoundMany(es, cs) && Shows(after, PortMany(es, cs)))
  {
    ghost var first := if stream then [Call(SOCK_STREAM, tcp)] else [];
    ghost var owned', owned'';
    var found, used;
    assert [] + first == first;
    nfound, used, after, owned' := GaCall(stream, head, nodes, es, owned, Call(SOCK_STREAM, tcp), allocs, 0, []);
    if nfound < 0 {
      if dgram { OneMoreCall(es, first, Call(SOCK_DGRAM, udp), allocs); }
      assert first + [] == first;
      return;
    }
    found, used, after, owned'' := GaCall(dgram, head, after, es, owned', Call(SOCK_DGRAM, udp), allocs, used, first);
    if found < 0 { return found, after; }
    nfound := nfound + found;
  }

  // ---- The cross product ----

  datatype Call = Call(socktype: int, port: int)

  function BothCalls(stream: bool, dgram: bool, tcp: int, udp: int): seq<Call> {
    (if stream then [Call(SOCK_STREAM, tcp)] else []) + (if dgram then [Call(SOCK_DGRAM, udp)] else [])
  }

  /** The calls of `ga_port` that `ga_serv` makes. */
  function ServCalls(hint: int, serv: Service): seq<Call> {
    match serv
    case Port(port) => if hint != 0 then [Call(hint, port)] else BothCalls(true, true, port, port)
    case Name(tcp, udp) =>
      BothCalls((hint == 0 || hint == SOCK_STREAM) && tcp.Some?, (hint == 0 || hint == SOCK_DGRAM) && udp.Some?,
                if tcp.Some? then tcp.value else 0, if udp.Some? then udp.value else 0)
  }

  /** One `ga_port` after another. */
  function PortMany(es: seq<Entry>, cs: seq<Call>): seq<Entry> {
    if cs == [] then es
    else PortAll(PortMany(es, cs[..|cs| - 1]), cs[|cs| - 1].socktype, cs[|cs| - 1].port)
  }

  function FoundMany(es: seq<Entry>, cs: seq<Call>): nat {
    if cs == [] then 0
    else FoundMany(es, cs[..|cs| - 1]) + Found(PortMany(es, cs[..|cs| - 1]), cs[|cs| - 1].socktype)
  }

  /** How many copies the calls make. */
  function CopiesMany(es: seq<Entry>, cs: seq<Call>): nat {
    if cs == [] then 0
    else CopiesMany(es, cs[..|cs| - 1]) + CopyCount(PortMany(es, cs[..|cs| - 1]))
  }

  /** Some copy of some call fails. */
  predicate FailsMany(es: seq<Entry>, cs: seq<Call>, allocs: nat -> Alloc) {
    cs != []
    && (|| FailsMany(es, cs[..|cs| - 1], allocs)
        || var now := PortMany(es, cs[..|cs| - 1]);
           FailFrom(now, allocs, CopiesMany(es, cs[..|cs| - 1]), 0) < |now|)
  }

  lemma OneMoreCall(es: seq<Entry>, cs: seq<Call>, c: Call, allocs: nat -> Alloc)
    ensures PortMany(es, cs + [c]) == PortAll(PortMany(es, cs), c.socktype, c.port)
    ensures FoundMany(es, cs + [c]) == FoundMany(es, cs) + Found(PortMany(es, cs), c.socktype)
    ensures CopiesMany(es, cs + [c]) == CopiesMany(es, cs) + CopyCount(PortMany(es, cs))
    ensures var now := PortMany(es, cs);
            FailsMany(es, cs + [c], allocs) <==>
            FailsMany(es, cs, allocs) || FailFrom(now, allocs, CopiesMany(es, cs), 0) < |now|
  {
    var all := cs + [c];
    assert all[..|all| - 1] == cs;
  }

  /** An entry the host search made for a caller that named no socket type. */
  predicate Unset(e: Entry) {
    e.clone && e.socktype == 0 && e.family != Local
  }

  ghost predicate DistinctTypes(cs: seq<Call>) {
    && (forall i :: 0 <= i < |cs| ==> cs[i].socktype != 0)
    && (forall i, j :: 0 <= i < j < |cs| ==> cs[i].socktype != cs[j].socktype)
  }

  /** The copies of an address for these calls, the latest first. */
  function Copies(e: Entry, cs: seq<Call>): seq<Entry> {
    if cs == [] then []
    else [Stamp(e.(clone := false), cs[|cs| - 1].socktype, cs[|cs| - 1].port)] + Copies(e, cs[..|cs| - 1])
  }

  /** What one address turns into. */
  function Block(e: Entry, cs: seq<Call>): seq<Entry>
    requires cs != []
  {
    [Stamp(e, cs[0].socktype, cs[0].port)] + Copies(e, cs[1..])
  }

  function Blocks(es: seq<Entry>, cs: seq<Call>): seq<Entry>
    requires cs != []
  {
    if es == [] then [] else Blocks(es[..|es| - 1], cs) + Block(es[|es| - 1], cs)
  }

  lemma {:induction false} PortConcat(a: seq<Entry>, b: seq<Entry>, socktype: int, port: int)
    ensures PortAll(a + b, socktype, port) == PortAll(a, socktype, port) + PortAll(b, socktype, port)
  {
    if b == [] {
      assert a + b == a;
    } else {
      var n := |b| - 1;
      assert (a + b)[..|a + b| - 1] == a + b[..n] && (a + b)[|a + b| - 1] == b[n];
      PortConcat(a, b[..n], socktype, port);
      assert PortAll(a + b, socktype, port)
          == PortAll(a, socktype, port) + PortAll(b[..n], socktype, port) + PortOne(b[n], socktype, port);
    }
  }

  lemma PortSingle(e: Entry, socktype: int, port: int)
    ensures PortAll([e], socktype, port) == PortOne(e, socktype, port)
  {
    assert [e][..0] == [];
    assert PortAll([e][..0], socktype, port) == [];
  }

  ghost predicate NewType(cs: seq<Call>, c: Call) {
    forall i :: 0 <= i < |cs| ==> cs[i].socktype != c.socktype
  }

  /** Finished copies of other types are passed by. */
  lemma {:induction false} CopiesStay(e: Entry, cs: seq<Call>, c: Call)
    requires NewType(cs, c)
    ensures PortAll(Copies(e, cs), c.socktype, c.port) == Copies(e, cs)
  {
    if cs != [] {
      var n := |cs| - 1;
      var first := Stamp(e.(clone := false), cs[n].socktype, cs[n].port);
      CopiesStay(e, cs[..n], c);
      PortConcat([first], Copies(e, cs[..n]), c.socktype, c.port);
      PortSingle(first, c.socktype, c.port);
    }
  }

  lemma BlockAppend(e: Entry, cs: seq<Call>, c: Call)
    requires cs != []
    ensures Block(e, cs + [c]) ==
            [Stamp(e, cs[0].socktype, cs[0].port), Stamp(e.(clone := false), c.socktype, c.port)] + Copies(e, cs[1..])
  {
    var all := cs + [c];
    assert all[0] == cs[0] && all[1..] == cs[1..] + [c];
    assert (cs[1..] + [c])[..|cs| - 1] == cs[1..];
  }

  /** One more call adds one copy, right behind the original. */
  lemma BlockGrows(e: Entry, cs: seq<Call>, c: Call)
    requires Unset(e) && cs != [] && cs[0].socktype != 0 && NewType(cs, c)
    ensures PortAll(Block(e, cs), c.socktype, c.port) == Block(e, cs + [c])
  {
    var first := Stamp(e, cs[0].socktype, cs[0].port);
    PortConcat([first], Copies(e, cs[1..]), c.socktype, c.port);
    PortSingle(first, c.socktype, c.port);
    CopiesStay(e, cs[1..], c);
    BlockAppend(e, cs, c);
  }

  lemma {:induction false} BlocksGrow(es: seq<Entry>, cs: seq<Call>, c: Call)
    requires cs != [] && cs[0].socktype != 0 && NewType(cs, c) && forall i :: 0 <= i < |es| ==> Unset(es[i])
    ensures PortAll(Blocks(es, cs), c.socktype, c.port) == Blocks(es, cs + [c])
  {
    if es != [] {
      var n := |es| - 1;
      BlocksGrow(es[..n], cs, c);
      BlockGrows(es[n], cs, c);
      PortConcat(Blocks(es[..n], cs), Block(es[n], cs), c.socktype, c.port);
    }
  }

  lemma {:induction false} FirstCall(es: seq<Entry>, c: Call)
    requires forall i :: 0 <= i < |es| ==> Unset(es[i])
    ensures PortAll(es, c.socktype, c.port) == Blocks(es, [c])
  {
    if es != [] {
      var n := |es| - 1;
      FirstCall(es[..n], c);
      assert Block(es[n], [c]) == [Stamp(es[n], c.socktype, c.port)];
    }
  }

  /** Running `ga_port` once for each of any distinct socket types over unset entries
      turns every address, in order, into its block: the original with the first
      type and one copy for each other type, each with that call's port. */
  lemma {:induction false} CrossProduct(es: seq<Entry>, cs: seq<Call>)
    requires cs != [] && DistinctTypes(cs) && forall i :: 0 <= i < |es| ==> Unset(es[i])
    ensures PortMany(es, cs) == Blocks(es, cs)
    decreases |cs|
  {
    var n := |cs| - 1;
    if n == 0 {
      assert cs == [cs[0]];
      OneMoreCall(es, [], cs[0], _ => Whole);
      assert [] + [cs[0]] == cs;
      FirstCall(es, cs[0]);
    } else {
      assert cs == cs[..n] + [cs[n]];
      CrossProduct(es, cs[..n]);
      BlocksGrow(es, cs[..n], cs[n]);
    }
  }

  lemma {:induction false} CopiesAt(e: Entry, cs: seq<Call>, j: nat)
    requires j < |cs|
    ensures |Copies(e, cs)| == |cs|
    ensures var c := cs[|cs| - 1 - j]; Copies(e, cs)[j] == Stamp(e.(clone := false), c.socktype, c.port)
    decreases |cs|
  {
    if |cs| > 1 {
      var n := |cs| - 1;
      CopiesAt(e, cs[..n], if j > 0 then j - 1 else 0);
    } else {
      assert Copies(e, cs[..0]) == [];
    }
  }

  /** In a block each of the types occurs exactly once, with its own port and the
      block's address. */
  lemma EachTypeOnce(e: Entry, cs: seq<Call>, m: nat) returns (j: nat)
    requires Unset(e) && DistinctTypes(cs) && m < |cs|
    ensures |Block(e, cs)| == |cs| && j < |cs|
    ensures var x := Block(e, cs)[j];
            x.socktype == cs[m].socktype && x.port == cs[m].port && x.addr == e.addr && x.family == e.family
    ensures forall i :: 0 <= i < |cs| && i != j ==> Block(e, cs)[i].socktype != cs[m].socktype
  {
    var n := |cs|;
    j := if m == 0 then 0 else n - m;
    if n == 1 { assert Copies(e, cs[1..]) == []; } else { CopiesAt(e, cs[1..], 0); }
    forall i | 1 <= i < n
      ensures Block(e, cs)[i] == Stamp(e.(clone := false), cs[n - i].socktype, cs[n - i].port)
    {
      CopiesAt(e, cs[1..], i - 1);
      assert cs[1..][n - 2 - (i - 1)] == cs[n - i];
    }
  }
}
