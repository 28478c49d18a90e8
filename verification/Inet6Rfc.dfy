/** What `inet_pton6` promises and what it does (unpv13e/libfree/inet_pton.c:127-139).

Its comment promises 1 exactly for the addresses of section 2.2 of RFC 1884, and
that a `::` in a full address is ignored. Here is that grammar on its own, on the
pieces between colons, and exactly how far each promise holds, for every text.
*/
module Inet6Rfc {
  import opened Basics
  import opened Inet4
  import opened Inet6Print
  import opened Inet6Parse
  import opened Inet6RoundTrip
  import opened Inet6Grammar

  // ---- The grammar of the RFC ----

  /** One to four hexadecimal digits. */
  predicate RfcGroup(g: string) {
    1 <= |g| <= 4 && AllHex(g)
  }

  /** A decimal octet of one to three digits. */
  predicate RfcOctet(g: string) {
    1 <= |g| <= 3 && Digits(g) && Value(g) <= 255
  }

  predicate RfcOctets(os: seq<string>) {
    |os| == 4 && forall i :: 0 <= i < |os| ==> RfcOctet(os[i])
  }

  predicate RfcQuad(g: string) {
    RfcOctets(Split(g))
  }

  /** Eight groups, a quad at the end counting for two. One empty piece may stand for
      one or more groups, and only right behind it may the last piece be empty. */
  predicate RfcBody(gs: seq<string>)
    requires |gs| >= 1
  {
    var inner, last := gs[..|gs| - 1], gs[|gs| - 1];
    && (forall i :: 0 <= i < |inner| ==> inner[i] == "" || RfcGroup(inner[i]))
    && (RfcGroup(last) || RfcQuad(last) || (last == "" && inner != [] && inner[|inner| - 1] == ""))
    && Empties(inner) <= 1
    && var groups := |inner| - Empties(inner) + (if last == "" then 0 else if RfcGroup(last) then 1 else 2);
       if Empties(inner) == 1 then groups <= 7 else groups == 8
  }

  /** The pieces without the one in front of a leading colon. */
  function BodyOf(gs: seq<string>): (body: seq<string>)
    requires |gs| >= 1
    ensures |body| >= 1
  {
    if |gs| > 1 && gs[0] == "" then gs[1..] else gs
  }

  /** A text that opens with a colon opens with two. */
  predicate OpensOk(gs: seq<string>) {
    |gs| > 1 && gs[0] == "" ==> |gs| > 2 && gs[1] == ""
  }

  function Body(src: string): (gs: seq<string>)
    ensures |gs| >= 1
  {
    BodyOf(Cut(src))
  }

  predicate Opens(src: string) {
    OpensOk(Cut(src))
  }

  predicate IsRfc(src: string) {
    Opens(src) && RfcBody(Body(src))
  }

  // ---- What is accepted beyond it ----

  predicate LongGroup(gs: seq<string>) {
    exists i :: 0 <= i < |gs| && AllHex(gs[i]) && |gs[i]| > 4
  }

  predicate LongOctet(gs: seq<string>)
    requires |gs| >= 1
  {
    var last := gs[|gs| - 1];
    IsQuad(last) && HasLong(Split(last))
  }

  predicate HasLong(os: seq<string>) {
    exists i :: 0 <= i < |os| && |os[i]| > 3
  }

  /** A last colon that is not part of a `::`. */
  predicate LoneColon(gs: seq<string>) {
    |gs| >= 2 && gs[|gs| - 1] == "" && gs[|gs| - 2] != ""
  }

  /** A `::` with nothing left for it to stand for. */
  predicate FullDouble(gs: seq<string>)
    requires |gs| >= 1
  {
    var inner, last := gs[..|gs| - 1], gs[|gs| - 1];
    && InnerOk(inner) && LastOk(last) && Empties(inner) == 1
    && 2 * |Vals(inner)| + |LastBytes(last)| == 16
  }

  lemma {:induction false} ValsCount(gs: seq<string>)
    requires InnerOk(gs)
    ensures |Vals(gs)| == |gs| - Empties(gs)
  {
    if gs != [] { ValsCount(gs[1..]); }
  }

  lemma RfcGroupIsGroup(g: string)
    requires RfcGroup(g)
    ensures IsGroup(g)
  {
    FoldBound(g[..|g| - 1]);
  }

  lemma GroupNotQuad(g: string)
    requires AllHex(g)
    ensures !IsQuad(g) && !RfcQuad(g)
  {
    if IsQuad(g) { QuadNotHex(g); }
    RfcQuadIsQuad(g);
  }

  lemma RfcQuadIsQuad(g: string)
    ensures RfcQuad(g) <==> IsQuad(g) && !HasLong(Split(g))
  {
    OctetsExact(Split(g));
  }

  lemma OctetsExact(os: seq<string>)
    ensures RfcOctets(os) <==> Octets(os) && !HasLong(os)
  {
    if Octets(os) && !HasLong(os) {
      forall i | 0 <= i < |os| ensures RfcOctet(os[i]) { assert Octet(os[i]); }
    }
    if RfcOctets(os) {
      forall i | 0 <= i < |os| ensures Octet(os[i]) && |os[i]| <= 3 { assert RfcOctet(os[i]); }
    }
  }

  /** An accepted last piece is of the RFC's form unless it is too long or empty. */
  lemma LastExact(g: string)
    ensures RfcGroup(g) || RfcQuad(g) ==> LastOk(g)
    ensures LastOk(g) ==>
              && (RfcGroup(g) <==> IsGroup(g) && |g| <= 4)
              && (RfcQuad(g) <==> IsQuad(g) && !HasLong(Split(g)))
              && |LastBytes(g)| == if g == "" then 0 else if IsGroup(g) then 2 else 4
    ensures AllHex(g) ==> !IsQuad(g) && !RfcQuad(g)
  {
    if RfcGroup(g) { RfcGroupIsGroup(g); }
    RfcQuadIsQuad(g);
    if AllHex(g) { GroupNotQuad(g); }
    if IsGroup(g) { BytesOne(HexFold(0, g)); }
  }

  /** Likewise for the pieces before it. */
  lemma InnerExactly(inner: seq<string>)
    ensures (forall i :: 0 <= i < |inner| ==> inner[i] == "" || RfcGroup(inner[i])) <==>
            InnerOk(inner) && !LongGroup(inner)
  {
    forall i | 0 <= i < |inner| && RfcGroup(inner[i]) ensures IsGroup(inner[i]) { RfcGroupIsGroup(inner[i]); }
  }

  lemma LongGroupParts(gs: seq<string>)
    requires |gs| >= 1
    ensures var last := gs[|gs| - 1];
            LongGroup(gs) <==> LongGroup(gs[..|gs| - 1]) || (AllHex(last) && |last| > 4)
  {
    var inner := gs[..|gs| - 1];
    if LongGroup(gs) {
      var i :| 0 <= i < |gs| && AllHex(gs[i]) && |gs[i]| > 4;
      if i < |gs| - 1 { assert inner[i] == gs[i]; }
    }
    if LongGroup(inner) {
      var i :| 0 <= i < |inner| && AllHex(inner[i]) && |inner[i]| > 4;
      assert gs[i] == inner[i];
    }
  }

  /** The RFC's bodies are the accepted ones without the four excesses. */
  lemma BodyBeyondIff(gs: seq<string>)
    requires |gs| >= 1
    ensures RfcBody(gs) <==>
            BodyOk(gs) && !LongGroup(gs) && !LongOctet(gs) && !LoneColon(gs) && !FullDouble(gs)
  {
    var inner, last := gs[..|gs| - 1], gs[|gs| - 1];
    InnerExactly(inner);
    LongGroupParts(gs);
    LastExact(last);
    if InnerOk(inner) { ValsCount(inner); }
    if |gs| >= 2 { assert inner[|inner| - 1] == gs[|gs| - 2]; }
  }

  /** Every address of the RFC is accepted, and a text is accepted without being one
      exactly when it is accepted and has a group of more than four digits, an octet
      of more than three, a lone colon at the end, or a `::` in a full address. */
  lemma BeyondRfcIff(src: string)
    ensures IsRfc(src) ==> Pton6(src).Some?
    ensures Pton6(src).Some? && !IsRfc(src) <==>
            && Pton6(src).Some?
            && var gs := Body(src); LongGroup(gs) || LongOctet(gs) || LoneColon(gs) || FullDouble(gs)
  {
    Pton6Exact(src);
    BodyBeyondIff(Body(src));
  }

  // ---- The lone colon ----

  lemma AcceptsIff(src: string)
    ensures Pton6(src) == if Opens(src) && BodyOk(Body(src)) then Some(Meaning(Body(src))) else None
  {
    Pton6Exact(src);
  }

  lemma {:induction false} CutColon(t: string)
    ensures Cut(t + ":") == Cut(t) + [""]
  {
    if t == "" {
      assert ":"[1..] == "" && Cut("") == [""];
    } else {
      assert (t + ":")[0] == t[0] && (t + ":")[1..] == t[1..] + ":";
      CutColon(t[1..]);
    }
  }

  lemma {:induction false} CutEnd(t: string)
    ensures Cut(t)[|Cut(t)| - 1] == "" <==> t == "" || t[|t| - 1] == ':'
  {
    if t != "" {
      CutEnd(t[1..]);
      if |t| > 1 { assert t[1..][|t| - 2] == t[|t| - 1]; }
    }
  }

  lemma {:induction false} EmptiesAppend(gs: seq<string>, g: string)
    ensures Empties(gs + [g]) == Empties(gs) + if g == "" then 1 else 0
  {
    if gs == [] {
      assert gs + [g] == [g] && [g][1..] == [];
    } else {
      assert (gs + [g])[1..] == gs[1..] + [g];
      EmptiesAppend(gs[1..], g);
    }
  }

  lemma {:induction false} LeadAppend(gs: seq<string>, g: string)
    requires Empties(gs) > 0
    ensures Lead(gs + [g]) == Lead(gs)
  {
    assert (gs + [g])[1..] == gs[1..] + [g];
    if gs[0] != "" { LeadAppend(gs[1..], g); }
  }

  lemma {:induction false} ValsAppend(gs: seq<string>, g: string)
    requires InnerOk(gs) && IsGroup(g)
    ensures InnerOk(gs + [g]) && Vals(gs + [g]) == Vals(gs) + [HexFold(0, g)]
  {
    InnerAppend(gs, g);
    var all := gs + [g];
    if gs == [] {
      assert all[1..] == [] && Vals(all[1..]) == [];
    } else {
      assert all[0] == gs[0] && all[1..] == gs[1..] + [g];
      ValsAppend(gs[1..], g);
      assert Vals(all[1..]) == Vals(gs[1..]) + [HexFold(0, g)];
    }
  }

  lemma InnerAppend(gs: seq<string>, g: string)
    requires InnerOk(gs) && IsGroup(g)
    ensures InnerOk(gs + [g])
  {
  }

  /** The pieces before the last, with the last moved in among them. */
  lemma MovedIn(inner: seq<string>, last: string)
    requires last != ""
    ensures Empties(inner + [last]) == Empties(inner)
    ensures InnerOk(inner + [last]) <==> InnerOk(inner) && IsGroup(last)
    ensures InnerOk(inner) && IsGroup(last) ==> Bytes(Vals(inner + [last])) == Bytes(Vals(inner)) + LastBytes(last)
    ensures InnerOk(inner) && IsGroup(last) && Empties(inner) > 0 ==> Lead(inner + [last]) == Lead(inner)
  {
    EmptiesAppend(inner, last);
    var gs := inner + [last];
    assert gs[|inner|] == last;
    if InnerOk(gs) {
      forall i | 0 <= i < |inner| ensures inner[i] == "" || IsGroup(inner[i]) { assert gs[i] == inner[i]; }
    }
    if InnerOk(inner) && IsGroup(last) {
      ValsAppend(inner, last);
      if Empties(inner) > 0 { LeadAppend(inner, last); }
      BytesConcat(Vals(inner), [HexFold(0, last)]);
    }
  }

  /** Behind a body that ends in a group the colon changes nothing; behind any other it is fatal. */
  lemma BodyColon(gs: seq<string>)
    requires |gs| >= 1 && gs[|gs| - 1] != ""
    ensures BodyOk(gs + [""]) <==> BodyOk(gs) && IsGroup(gs[|gs| - 1])
    ensures BodyOk(gs + [""]) ==> Meaning(gs + [""]) == Meaning(gs)
  {
    var inner, last, hs := gs[..|gs| - 1], gs[|gs| - 1], gs + [""];
    assert hs[..|hs| - 1] == gs && gs == inner + [last];
    MovedIn(inner, last);
    if InnerOk(inner) && IsGroup(last) { SameMeaning(gs); }
  }

  lemma SameMeaning(gs: seq<string>)
    requires |gs| >= 1 && InnerOk(gs[..|gs| - 1]) && IsGroup(gs[|gs| - 1])
    ensures BodyOk(gs + [""]) <==> BodyOk(gs)
    ensures BodyOk(gs) ==> Meaning(gs + [""]) == Meaning(gs)
  {
    var inner, last, hs := gs[..|gs| - 1], gs[|gs| - 1], gs + [""];
    assert hs[..|hs| - 1] == gs && gs == inner + [last];
    MovedIn(inner, last);
    assert |Bytes(Vals(inner))| == 2 * |Vals(inner)| && |Bytes(Vals(gs))| == 2 * |Vals(gs)|;
    assert LastBytes("") == [] && Bytes(Vals(gs)) + [] == Bytes(Vals(gs));
  }

  lemma BodyAppends(t: string)
    requires t != "" && t[|t| - 1] != ':'
    ensures Body(t + ":") == Body(t) + [""] && Opens(t + ":") == Opens(t)
    ensures Body(t)[|Body(t)| - 1] == Cut(t)[|Cut(t)| - 1] != ""
  {
    CutColon(t);
    CutEnd(t);
    PiecesAppend(Cut(t));
  }

  lemma PiecesAppend(gs: seq<string>)
    requires |gs| >= 1 && gs[|gs| - 1] != ""
    ensures BodyOf(gs + [""]) == BodyOf(gs) + [""] && OpensOk(gs + [""]) == OpensOk(gs)
    ensures BodyOf(gs)[|BodyOf(gs)| - 1] == gs[|gs| - 1]
  {
  }

  /** A colon behind any text that does not end in one is accepted, and ignored,
      exactly when the text is accepted and ends in a hexadecimal group. */
  lemma TrailingColonIff(t: string)
    requires t != "" && t[|t| - 1] != ':'
    ensures Pton6(t + ":") == if IsGroup(Cut(t)[|Cut(t)| - 1]) then Pton6(t) else None
  {
    BodyAppends(t);
    BodyColon(Body(t));
    AcceptsIff(t);
    AcceptsIff(t + ":");
  }

  // ---- The full address with a `::` ----

  /** The pieces without the first empty one. */
  function Without(gs: seq<string>): seq<string> {
    if gs == [] then [] else if gs[0] == "" then gs[1..] else [gs[0]] + Without(gs[1..])
  }

  lemma {:induction false} WithoutSame(gs: seq<string>)
    requires InnerOk(gs) && Empties(gs) == 1
    ensures InnerOk(Without(gs)) && Empties(Without(gs)) == 0 && Vals(Without(gs)) == Vals(gs)
    ensures forall i :: 0 <= i < |Without(gs)| ==> Without(gs)[i] in gs
  {
    if gs[0] != "" {
      WithoutSame(gs[1..]);
      assert Without(gs)[1..] == Without(gs[1..]);
    }
  }

  /** The text with its `::` ignored: the colons around the empty piece become one,
      or none at the start. */
  function Ignoring(gs: seq<string>): string
    requires |gs| >= 1
  {
    JoinColons(Without(gs[..|gs| - 1]) + [gs[|gs| - 1]])
  }

  /** The bytes as written, before the shift. */
  function Written(gs: seq<string>): seq<nat>
    requires |gs| >= 1 && InnerOk(gs[..|gs| - 1]) && LastOk(gs[|gs| - 1])
  {
    Bytes(Vals(gs[..|gs| - 1])) + LastBytes(gs[|gs| - 1])
  }

  lemma NoEmpties(gs: seq<string>)
    requires gs != [] && Empties(gs) == 0
    ensures gs[0] != ""
  {
  }

  lemma NoColonFirst(gs: seq<string>)
    requires |gs| >= 1 && gs[0] != "" && ColonFree(gs)
    ensures JoinColons(gs) != "" && JoinColons(gs)[0] != ':'
  {
    assert JoinColons(gs)[0] == gs[0][0] && gs[0][0] in gs[0];
  }

  /** Without its `::` a full address is read as it is written. */
  lemma IgnoringParses(gs: seq<string>)
    requires |gs| >= 1 && ColonFree(gs) && FullDouble(gs)
    ensures Pton6(Ignoring(gs)) == Some(Written(gs))
  {
    var inner, last := gs[..|gs| - 1], gs[|gs| - 1];
    var fewer := Without(inner);
    WithoutSame(inner);
    var hs := fewer + [last];
    assert hs[..|hs| - 1] == fewer;
    assert ColonFree(hs);
    BodyExact(hs, JoinColons(hs));
    LastExact(last);
    assert fewer != [];
    NoEmpties(fewer);
    NoColonFirst(hs);
  }

  /** The comment says a `::` in a full address is ignored. That holds exactly when
      every byte written after it is zero. */
  lemma FullDoubleIff(src: string)
    requires Pton6(src).Some? && FullDouble(Body(src))
    ensures var gs := Body(src);
            Pton6(src) == Pton6(Ignoring(gs)) <==> ZeroFrom(Written(gs), 2 * Lead(gs[..|gs| - 1]))
  {
    var gs := Body(src);
    AcceptsIff(src);
    BodyColonFree(src);
    IgnoringParses(gs);
    MeaningSpreads(gs);
    FullDoubleIgnoredIff(Written(gs), 2 * Lead(gs[..|gs| - 1]));
  }

  lemma BodyColonFree(src: string)
    ensures ColonFree(Body(src))
  {
    CutJoins(src);
  }

  lemma MeaningSpreads(gs: seq<string>)
    requires |gs| >= 1 && BodyOk(gs) && FullDouble(gs)
    ensures |Written(gs)| == 16 && 2 * Lead(gs[..|gs| - 1]) <= 16
    ensures Meaning(gs) == Spread(Written(gs), 2 * Lead(gs[..|gs| - 1]))
  {
    LeadBound(gs[..|gs| - 1]);
  }

  // ---- One text of each kind ----

  lemma LoneColonText()
    ensures Pton6("1::2:").Some? && LoneColon(Body("1::2:")) && !IsRfc("1::2:")
  {
  }

  // ---- What is printed ----

  lemma {:induction false} CutConcat(a: string, b: string)
    ensures Cut(a + (":" + b)) == Cut(a) + Cut(b)
  {
    if a == "" {
      assert a + (":" + b) == ":" + b && (":" + b)[1..] == b;
    } else {
      assert (a + (":" + b))[0] == a[0] && (a + (":" + b))[1..] == a[1..] + (":" + b);
      CutConcat(a[1..], b);
    }
  }

  lemma {:induction false} CutWhole(g: string)
    requires ':' !in g
    ensures Cut(g) == [g]
  {
    if g != "" {
      assert g[0] in g && forall c :: c in g[1..] ==> c in g;
      CutWhole(g[1..]);
      assert g == [g[0]] + g[1..];
    }
  }

  ghost predicate AllGroups(gs: seq<string>) {
    forall i :: 0 <= i < |gs| ==> RfcGroup(gs[i])
  }

  lemma HexIsGroup(w: nat)
    requires w <= 0xffff
    ensures RfcGroup(Hex(w)) && Cut(Hex(w)) == [Hex(w)]
  {
    HexReads(w);
    HexLength(w);
    CutWhole(Hex(w));
  }

  lemma ColonsThenGroups(ws: seq<nat>)
    requires ws != []
    ensures Colons(ws) == ":" + Groups(ws)
  {
    var h, t := Hex(ws[0]), Colons(ws[1..]);
    assert ":" + h + t == ":" + (h + t);
  }

  /** Joined groups fall apart into as many pieces, all of the RFC's form. */
  lemma {:induction false} CutGroups(ws: seq<nat>)
    requires ws != [] && Fits(ws)
    ensures |Cut(Groups(ws))| == |ws| && AllGroups(Cut(Groups(ws)))
  {
    HexIsGroup(ws[0]);
    if |ws| == 1 {
      assert Colons(ws[1..]) == "" && Hex(ws[0]) + "" == Hex(ws[0]);
    } else {
      var rest := ws[1..];
      CutGroups(rest);
      ColonsThenGroups(rest);
      CutConcat(Hex(ws[0]), Groups(rest));
    }
  }

  lemma {:induction false} NoneEmpty(gs: seq<string>)
    requires AllGroups(gs)
    ensures Empties(gs) == 0
  {
    if gs != [] { NoneEmpty(gs[1..]); }
  }

  lemma {:induction false} EmptiesConcat(a: seq<string>, b: seq<string>)
    ensures Empties(a + b) == Empties(a) + Empties(b)
  {
    if a == [] {
      assert a + b == b;
    } else {
      assert (a + b)[1..] == a[1..] + b;
      EmptiesConcat(a[1..], b);
    }
  }

  /** Groups, one empty piece, groups and a last piece. */
  lemma AroundIsRfc(u: seq<string>, v: seq<string>, last: string)
    requires AllGroups(u) && AllGroups(v)
    requires RfcGroup(last) || RfcQuad(last) || (last == "" && v == [])
    requires |u| + |v| <= 5 || (|u| + |v| <= 6 && (last == "" || RfcGroup(last)))
    ensures RfcBody(u + [""] + v + [last])
  {
    var gs, inner := u + [""] + v + [last], u + [""] + v;
    assert gs[..|gs| - 1] == inner;
    NoneEmpty(u);
    NoneEmpty(v);
    EmptiesConcat(u, [""]);
    EmptiesConcat(u + [""], v);
    assert Empties([""]) == 1 by { assert [""][1..] == []; }
  }

  /** A text `left::right` is cut around the empty piece. */
  lemma CutDouble(left: string, right: string)
    ensures Cut(left + ("::" + right)) == Cut(left) + ([""] + Cut(right))
  {
    assert "::" + right == ":" + (":" + right) && "" + (":" + right) == ":" + right;
    CutWhole("");
    CutConcat("", right);
    CutConcat(left, ":" + right);
  }

  /** Dropping the piece in front of a leading colon. */
  lemma BodyDouble(src: string, u: seq<string>, rest: seq<string>)
    requires AllGroups(u) && rest != []
    requires Cut(src) == (if u == [] then [""] else u) + ([""] + rest)
    ensures Opens(src) && Body(src) == u + [""] + rest
  {
  }

  lemma DoubleIsRfc(left: string, right: string, u: seq<string>, v: seq<string>, last: string)
    requires Cut(left) == if u == [] then [""] else u
    requires Cut(right) == v + [last]
    requires AllGroups(u) && AllGroups(v)
    requires RfcGroup(last) || RfcQuad(last) || (last == "" && v == [])
    requires |u| + |v| <= 5 || (|u| + |v| <= 6 && (last == "" || RfcGroup(last)))
    ensures IsRfc(left + ("::" + right))
  {
    CutDouble(left, right);
    BodyDouble(left + ("::" + right), u, v + [last]);
    AroundIsRfc(u, v, last);
    assert u + [""] + (v + [last]) == u + [""] + v + [last];
  }

  /** The pieces of joined groups, the last one apart. */
  lemma LastGroup(v: seq<nat>) returns (vs: seq<string>, last: string)
    requires Fits(v)
    ensures Cut(Groups(v)) == vs + [last] && AllGroups(vs)
    ensures if v == [] then vs == [] && last == "" else RfcGroup(last) && |vs| == |v| - 1
  {
    if v == [] {
      CutWhole("");
      vs, last := [], "";
    } else {
      CutGroups(v);
      var gs := Cut(Groups(v));
      vs, last := gs[..|gs| - 1], gs[|gs| - 1];
    }
  }

  lemma CompressedIsRfc(u: seq<nat>, v: seq<nat>)
    requires Fits(u) && Fits(v) && |u| + |v| <= 6
    ensures IsRfc(Groups(u) + ("::" + Groups(v)))
  {
    var us: seq<string> := [];
    if u == [] {
      CutWhole("");
    } else {
      CutGroups(u);
      us := Cut(Groups(u));
    }
    var vs, last := LastGroup(v);
    DoubleIsRfc(Groups(u), Groups(v), us, vs, last);
  }

  lemma QuadTextIsRfc(b: seq<Byte>)
    requires |b| == 4
    ensures RfcQuad(QuadText(b)) && Cut(QuadText(b)) == [QuadText(b)]
  {
    QuadTextSplits(b);
    DecReads(b[0]); DecReads(b[1]); DecReads(b[2]); DecReads(b[3]);
    DecLength(b[0]); DecLength(b[1]); DecLength(b[2]); DecLength(b[3]);
    QuadRoundTrip(b);
    QuadHasNoColon(QuadText(b));
    CutWhole(QuadText(b));
  }

  lemma MappedIsRfc(w: nat, quad: string)
    requires w <= 0xffff && RfcQuad(quad) && Cut(quad) == [quad]
    ensures IsRfc("::" + (Hex(w) + (":" + quad)))
  {
    var right := Hex(w) + (":" + quad);
    HexIsGroup(w);
    CutConcat(Hex(w), quad);
    CutWhole("");
    DoubleIsRfc("", right, [], [Hex(w)], quad);
    assert "" + ("::" + right) == "::" + right;
  }

  lemma EmbeddedIsRfc(b: seq<Byte>)
    requires |b| == 16 && Embeds(Words(b), BestRun(Words(b)))
    ensures IsRfc(Text(b))
  {
    EmbeddedText(b, Words(b));
    var quad := QuadText(b[12..]);
    QuadTextIsRfc(b[12..]);
    CutWhole("");
    if BestRun(Words(b)).len == 6 {
      DoubleIsRfc("", quad, [], [], quad);
      assert "" + ("::" + quad) == "::" + quad;
    } else {
      MappedIsRfc(Words(b)[5], quad);
    }
  }

  /** Whatever `inet_ntop6` prints is an address of the RFC. */
  lemma PrintsRfc(b: seq<Byte>)
    requires |b| == 16
    ensures IsRfc(Text(b))
  {
    var ws := Words(b);
    var run := BestRun(ws);
    if Embeds(ws, run) {
      EmbeddedIsRfc(b);
    } else if run.base == -1 {
      TextPlain(b);
      CutGroups(ws);
      PlainIsRfc(Cut(Groups(ws)));
    } else {
      TextCompressed(b);
      CompressedIsRfc(ws[..run.base], ws[run.base + run.len..]);
    }
  }

  lemma PlainIsRfc(gs: seq<string>)
    requires |gs| == 8 && AllGroups(gs)
    ensures RfcBody(gs) && gs[0] != ""
  {
    NoneEmpty(gs[..7]);
  }

  // ---- Long groups and octets are taken ----

  /** Groups, one empty piece and a last piece, few enough to fit. */
  lemma FewPieces(u: seq<string>, last: string)
    requires |u| <= 1 && InnerOk(u) && Empties(u) == 0 && (last == "" || IsQuad(last))
    ensures BodyOk(u + [""] + [last])
  {
    var gs, inner := u + [""] + [last], u + [""];
    assert gs[..|gs| - 1] == inner;
    EmptiesAppend(u, "");
    ValsCount(inner);
    LastExact(last);
  }

  lemma RfcPieces(gs: seq<string>)
    requires |gs| >= 2 && RfcBody(gs)
    ensures gs[0] == "" || RfcGroup(gs[0])
    ensures gs[|gs| - 1] == "" || RfcGroup(gs[|gs| - 1]) || RfcQuad(gs[|gs| - 1])
  {
    assert gs[..|gs| - 1][0] == gs[0];
  }

  /** A group goes through whatever its length: here it is in front of `::`. */
  lemma LongGroupTaken(g: string)
    requires IsGroup(g)
    ensures Pton6(g + "::").Some?
    ensures IsRfc(g + "::") <==> |g| <= 4
  {
    var src := g + ("::" + "");
    assert ':' !in g && src == g + "::";
    CutWhole(g);
    CutWhole("");
    CutDouble(g, "");
    OneGroup(g);
    FewPieces([g], "");
    assert Body(src) == [g] + [""] + [""] && Opens(src);
    if |g| <= 4 {
      AroundIsRfc([g], [], "");
      assert [g] + [""] + [] + [""] == Body(src);
    }
    if IsRfc(src) { RfcPieces(Body(src)); }
    AcceptsIff(src);
  }

  lemma OneGroup(g: string)
    requires IsGroup(g)
    ensures InnerOk([g]) && Empties([g]) == 0
    ensures AllGroups([g]) <==> |g| <= 4
  {
    assert [g][1..] == [];
    if AllGroups([g]) { assert RfcGroup([g][0]); }
  }

  lemma QuadBehindDouble(g: string)
    requires IsQuad(g)
    ensures Opens("::" + g) && Body("::" + g) == [""] + [g] && g != ""
  {
    var src, none: seq<string> := "" + ("::" + g), [];
    assert src == "::" + g;
    Pton4Exact(g);
    QuadHasNoColon(g);
    CutWhole(g);
    CutWhole("");
    CutDouble("", g);
    BodyDouble(src, none, [g]);
    assert none + [""] + [g] == [""] + [g];
  }

  /** So does a quad with long octets: here it is behind `::`. */
  lemma LongOctetTaken(g: string)
    requires IsQuad(g)
    ensures Pton6("::" + g).Some?
    ensures IsRfc("::" + g) <==> RfcQuad(g)
  {
    var none: seq<string> := [];
    QuadBehindDouble(g);
    FewPieces(none, g);
    assert none + [""] + [g] == [""] + [g];
    AcceptsIff("::" + g);
    QuadAlone(g);
  }

  lemma QuadAlone(g: string)
    requires IsQuad(g) && g != ""
    ensures RfcBody([""] + [g]) <==> RfcQuad(g)
  {
    var none: seq<string> := [];
    if RfcQuad(g) {
      AroundIsRfc(none, none, g);
      assert none + [""] + none + [g] == [""] + [g];
    }
    if RfcBody([""] + [g]) {
      RfcPieces([""] + [g]);
      LastExact(g);
    }
  }

  // ---- A `::` in a full address is taken ----

  /** Eight groups around an empty piece leave it nothing to stand for. */
  lemma EightAround(us: seq<string>, vs: seq<string>, last: string)
    requires AllGroups(us) && AllGroups(vs) && (RfcGroup(last) || (last == "" && vs == []))
    requires |us| + |vs| + (if last == "" then 0 else 1) == 8
    ensures FullDouble(us + [""] + vs + [last])
  {
    var gs, inner := us + [""] + vs + [last], us + [""] + vs;
    assert gs[..|gs| - 1] == inner;
    NoneEmpty(us);
    NoneEmpty(vs);
    EmptiesConcat(us, [""]);
    EmptiesConcat(us + [""], vs);
    assert Empties([""]) == 1 by { assert [""][1..] == []; }
    forall i | 0 <= i < |inner| ensures inner[i] == "" || RfcGroup(inner[i]) {
      if i < |us| { assert inner[i] == us[i]; } else if i > |us| { assert inner[i] == vs[i - |us| - 1]; }
    }
    InnerExactly(inner);
    ValsCount(inner);
    LastExact(last);
  }

  lemma FullDoubleBody(u: seq<nat>, v: seq<nat>)
    requires Fits(u) && Fits(v) && |u| + |v| == 8
    ensures FullDouble(Body(Groups(u) + ("::" + Groups(v))))
  {
    var us: seq<string> := [];
    if u == [] {
      CutWhole("");
    } else {
      CutGroups(u);
      us := Cut(Groups(u));
    }
    var vs, last := LastGroup(v);
    CutDouble(Groups(u), Groups(v));
    BodyDouble(Groups(u) + ("::" + Groups(v)), us, vs + [last]);
    EightAround(us, vs, last);
    assert us + [""] + (vs + [last]) == us + [""] + vs + [last];
  }

  /** Any eight groups with a `::` between, before or behind them are accepted and are
      no address of the RFC; the `::` is ignored exactly when every group after it is zero. */
  lemma FullDoubleTaken(u: seq<nat>, v: seq<nat>)
    requires Fits(u) && Fits(v) && |u| + |v| == 8
    ensures var src := Groups(u) + ("::" + Groups(v));
            && FullDouble(Body(src)) && !IsRfc(src)
            && Pton6(src) == Some(Bytes(u) + Zeros(2 * |v|)) && Pton6(Groups(u + v)) == Some(Bytes(u + v))
            && (Pton6(src) == Pton6(Groups(u + v)) <==> ZeroFrom(v, 0))
  {
    var src := Groups(u) + ("::" + Groups(v));
    FullDoubleBody(u, v);
    BeyondRfcIff(src);
    AroundDoubleParses(u, v);
    PlainParses(u + v);
    BytesConcat(u, v);
    SpreadFull(Bytes(u), Bytes(v));
    ZeroBytesIff(v);
  }

  lemma SpreadFull(x: seq<nat>, y: seq<nat>)
    requires |x| + |y| == 16
    ensures Spread(x + y, |x|) == x + Zeros(|y|)
    ensures x + y == x + Zeros(|y|) <==> y == Zeros(|y|)
  {
    if x + y == x + Zeros(|y|) { assert y == (x + y)[|x|..] && Zeros(|y|) == (x + Zeros(|y|))[|x|..]; }
  }

  lemma {:induction false} ZeroBytesIff(ws: seq<nat>)
    ensures Bytes(ws) == Zeros(2 * |ws|) <==> ZeroFrom(ws, 0)
  {
    if ws != [] {
      var n := |ws| - 1;
      ZeroBytesIff(ws[..n]);
      assert Bytes(ws) == Bytes(ws[..n]) + [ws[n] / 256, ws[n] % 256];
      if Bytes(ws) == Zeros(2 * |ws|) {
        assert Bytes(ws)[2 * n] == 0 && Bytes(ws)[2 * n + 1] == 0;
        assert Bytes(ws[..n]) == Bytes(ws)[..2 * n] == Zeros(2 * n);
        assert forall i :: 0 <= i < n ==> ws[..n][i] == ws[i];
      }
      if ZeroFrom(ws, 0) { assert ZeroFrom(ws[..n], 0); }
    }
  }

  function Digit(w: nat): char
    requires w < 10
  {
    ('0' as int + w) as char
  }

  /** Groups of one digit each, written out. */
  function Spelled(ws: seq<nat>): string
    requires forall i :: 0 <= i < |ws| ==> ws[i] < 10
  {
    if ws == [] then "" else [':', Digit(ws[0])] + Spelled(ws[1..])
  }

  lemma {:induction false} ColonsSpelled(ws: seq<nat>)
    requires forall i :: 0 <= i < |ws| ==> ws[i] < 10
    ensures Colons(ws) == Spelled(ws)
  {
    if ws != [] {
      ColonsSpelled(ws[1..]);
      assert ":" + Hex(ws[0]) == [':', Digit(ws[0])];
    }
  }

  lemma GroupsSpelled(ws: seq<nat>)
    requires ws != [] && forall i :: 0 <= i < |ws| ==> ws[i] < 10
    ensures ":" + Groups(ws) == Spelled(ws)
  {
    ColonsThenGroups(ws);
    ColonsSpelled(ws);
  }

  lemma SpelledMore(w: nat, ws: seq<nat>)
    requires w < 10 && forall i :: 0 <= i < |ws| ==> ws[i] < 10
    ensures Spelled([w] + ws) == [':', Digit(w)] + Spelled(ws)
  {
    assert ([w] + ws)[1..] == ws;
  }

  lemma SpelledFour(a: nat, b: nat, c: nat, d: nat)
    requires a < 10 && b < 10 && c < 10 && d < 10
    ensures Spelled([a, b, c, d]) == [':', Digit(a), ':', Digit(b), ':', Digit(c), ':', Digit(d)]
  {
    assert [d] + [] == [d] && [c] + [d] == [c, d] && [b] + [c, d] == [b, c, d] && [a] + [b, c, d] == [a, b, c, d];
    SpelledMore(d, []);
    SpelledMore(c, [d]);
    SpelledMore(b, [c, d]);
    SpelledMore(a, [b, c, d]);
  }

  lemma BytesFour(ws: seq<nat>)
    requires |ws| == 4 && forall i :: 0 <= i < 4 ==> ws[i] < 10
    ensures Bytes(ws) == [0, ws[0], 0, ws[1], 0, ws[2], 0, ws[3]]
  {
    forall i | 0 <= i < 4 ensures Bytes(ws)[2 * i] == 0 && Bytes(ws)[2 * i + 1] == ws[i] { BytesAt(ws, i); }
    assert Bytes(ws)[2 * 0] == Bytes(ws)[2 * 1] == Bytes(ws)[2 * 2] == Bytes(ws)[2 * 3] == 0;
  }

  lemma FourGroups(ws: seq<nat>, a: nat, b: nat, c: nat, d: nat)
    requires a < 10 && b < 10 && c < 10 && d < 10 && ws == [a, b, c, d]
    ensures Groups(ws) == [Digit(a), ':', Digit(b), ':', Digit(c), ':', Digit(d)]
  {
    GroupsSpelled(ws);
    SpelledFour(a, b, c, d);
    assert Groups(ws) == (":" + Groups(ws))[1..];
  }

  lemma {:induction false} ColonsJoin(u: seq<nat>, v: seq<nat>)
    ensures Colons(u + v) == Colons(u) + Colons(v)
  {
    if u == [] {
      assert u + v == v;
    } else {
      assert (u + v)[1..] == u[1..] + v && (u + v)[0] == u[0];
      ColonsJoin(u[1..], v);
      Regroup(":" + Hex(u[0]), Colons(u[1..]), Colons(v));
    }
  }

  lemma Regroup(x: string, y: string, z: string)
    ensures x + (y + z) == x + y + z
  {
  }

  lemma GroupsJoin(u: seq<nat>, v: seq<nat>)
    requires u != [] && v != []
    ensures Groups(u + v) == Groups(u) + (":" + Groups(v))
  {
    assert (u + v)[1..] == u[1..] + v && (u + v)[0] == u[0];
    ColonsJoin(u[1..], v);
    ColonsThenGroups(v);
    Regroup(Hex(u[0]), Colons(u[1..]), Colons(v));
  }

  /** The comment's promise fails here: the four groups after the `::` are cleared. */
  lemma FullDoubleText() returns (src: string, plain: string)
    ensures src == "1:2:3:4::5:6:7:8" && plain == "1:2:3:4:5:6:7:8"
    ensures FullDouble(Body(src)) && !IsRfc(src)
    ensures Pton6(src) == Some([0, 1, 0, 2, 0, 3, 0, 4] + Zeros(8)) && Pton6(plain) != Pton6(src)
  {
    var u, v := [1, 2, 3, 4], [5, 6, 7, 8];
    src, plain := FullDoubleDigits(u, v);
    Spellings(u, v);
    Joined(Groups(u), Groups(v));
    assert v[0] != 0;
  }

  lemma Joined(a: string, b: string)
    requires a == "1:2:3:4" && b == "5:6:7:8"
    ensures a + ("::" + b) == "1:2:3:4::5:6:7:8" && a + (":" + b) == "1:2:3:4:5:6:7:8"
  {
  }

  lemma Spellings(u: seq<nat>, v: seq<nat>)
    requires u == [1, 2, 3, 4] && v == [5, 6, 7, 8]
    ensures Groups(u) == "1:2:3:4" && Groups(v) == "5:6:7:8" && Bytes(u) == [0, 1, 0, 2, 0, 3, 0, 4]
  {
    FourGroups(u, 1, 2, 3, 4);
    FourGroups(v, 5, 6, 7, 8);
    BytesFour(u);
  }

  lemma FullDoubleDigits(u: seq<nat>, v: seq<nat>) returns (src: string, plain: string)
    requires |u| == |v| == 4
    requires forall i :: 0 <= i < |u| ==> u[i] < 10
    requires forall i :: 0 <= i < |v| ==> v[i] < 10
    ensures src == Groups(u) + ("::" + Groups(v)) && plain == Groups(u) + (":" + Groups(v))
    ensures FullDouble(Body(src)) && !IsRfc(src)
    ensures Pton6(src) == Some(Bytes(u) + Zeros(8))
    ensures Pton6(plain) == Pton6(src) <==> ZeroFrom(v, 0)
  {
    src, plain := Groups(u) + ("::" + Groups(v)), Groups(u) + (":" + Groups(v));
    FullDoubleTaken(u, v);
    GroupsJoin(u, v);
  }
}
