/** Exactly which texts `inet_pton6` accepts, and what they mean.

The reference is the list of pieces between colons (compare section 2.2 of RFC
1884): hexadecimal groups, at most one empty piece inside, and a last piece that
may also be empty or a dotted quad.
*/
module Inet6Grammar {
  import opened Basics
  import opened Inet4
  import opened Inet6Print
  import opened Inet6Parse
  import opened Inet6RoundTrip

  // ---- Pieces ----

  /** The pieces of a text between its colons, always at least one. */
  function Cut(s: string): (gs: seq<string>)
    ensures |gs| >= 1
  {
    if s == "" then [""]
    else
      var gs := Cut(s[1..]);
      if s[0] == ':' then [""] + gs else [[s[0]] + gs[0]] + gs[1..]
  }

  function JoinColons(gs: seq<string>): string
    requires |gs| >= 1
  {
    if |gs| == 1 then gs[0] else gs[0] + (":" + JoinColons(gs[1..]))
  }

  ghost predicate ColonFree(gs: seq<string>) {
    forall i :: 0 <= i < |gs| ==> ':' !in gs[i]
  }

  /** Cutting loses nothing and leaves no colon inside a piece. */
  lemma {:induction false} CutJoins(s: string)
    ensures JoinColons(Cut(s)) == s && ColonFree(Cut(s))
  {
    if s != "" {
      var gs := Cut(s[1..]);
      CutJoins(s[1..]);
      assert s == [s[0]] + s[1..];
      if s[0] == ':' {
        assert ([""] + gs)[1..] == gs;
        assert "" + (":" + s[1..]) == s;
      } else {
        var hs := [[s[0]] + gs[0]] + gs[1..];
        assert hs[1..] == gs[1..];
        if |gs| > 1 { assert hs[0] + (":" + JoinColons(gs[1..])) == [s[0]] + (gs[0] + (":" + JoinColons(gs[1..]))); }
      }
    }
  }

  /** A group: one or more hexadecimal digits worth at most 16 bits. */
  predicate IsGroup(g: string) {
    g != "" && AllHex(g) && HexFold(0, g) <= 0xffff
  }

  predicate InnerOk(gs: seq<string>) {
    forall i :: 0 <= i < |gs| ==> gs[i] == "" || IsGroup(gs[i])
  }

  function Empties(gs: seq<string>): nat {
    if gs == [] then 0 else (if gs[0] == "" then 1 else 0) + Empties(gs[1..])
  }

  /** The groups' values. */
  function Vals(gs: seq<string>): seq<nat>
    requires InnerOk(gs)
  {
    if gs == [] then [] else (if gs[0] == "" then [] else [HexFold(0, gs[0])]) + Vals(gs[1..])
  }

  /** How many groups stand before the first empty piece. */
  function Lead(gs: seq<string>): nat {
    if gs == [] || gs[0] == "" then 0 else 1 + Lead(gs[1..])
  }

  predicate LastOk(g: string) {
    g == "" || IsGroup(g) || IsQuad(g)
  }

  function LastBytes(g: string): seq<nat>
    requires LastOk(g)
  {
    if g == "" then [] else if IsGroup(g) then Bytes([HexFold(0, g)]) else Values(Split(g))
  }

  /** The reference: with one empty piece inside at most sixteen bytes, else exactly sixteen. */
  predicate BodyOk(gs: seq<string>)
    requires |gs| >= 1
  {
    var inner, last := gs[..|gs| - 1], gs[|gs| - 1];
    && InnerOk(inner) && LastOk(last) && Empties(inner) <= 1
    && var size := 2 * |Vals(inner)| + |LastBytes(last)|;
       if Empties(inner) == 1 then size <= 16 else size == 16
  }

  /** The bytes written, with the gap at the empty piece spread out. */
  function Meaning(gs: seq<string>): seq<nat>
    requires |gs| >= 1 && BodyOk(gs)
  {
    var inner, last := gs[..|gs| - 1], gs[|gs| - 1];
    var out := Bytes(Vals(inner)) + LastBytes(last);
    LeadBound(inner);
    if Empties(inner) == 1 then Spread(out, 2 * Lead(inner)) else out
  }

  lemma {:induction false} LeadBound(gs: seq<string>)
    requires InnerOk(gs)
    ensures Lead(gs) <= |Vals(gs)|
  {
    if gs != [] { LeadBound(gs[1..]); }
  }

  /** A text opening with a colon must open with two; the first is dropped. */
  predicate IsAddress(src: string) {
    var gs := Cut(src);
    if |gs| > 1 && gs[0] == "" then |gs| > 2 && gs[1] == "" && BodyOk(gs[1..]) else BodyOk(gs)
  }

  function Address(src: string): seq<nat>
    requires IsAddress(src)
  {
    var gs := Cut(src);
    if |gs| > 1 && gs[0] == "" then Meaning(gs[1..]) else Meaning(gs)
  }

  // ---- The loop on one piece ----

  lemma {:induction false} DigitsOverflow(t: string, rest: string, p: Parse)
    requires AllHex(t) && p.val <= 0xffff < HexFold(p.val, t)
    ensures ScanText(t + rest, p) == None
    decreases |t|
  {
    var v := p.val * 16 + HexValue(t[0]);
    FoldFront(p.val, t);
    assert (t + rest)[0] == t[0] && (t + rest)[1..] == t[1..] + rest;
    if v <= 0xffff { DigitsOverflow(t[1..], rest, p.(saw := true, val := v)); }
  }

  /** A character that is neither digit nor colon ends the scan, unless it opens a quad. */
  lemma {:induction false} BadCharRejects(g: string, rest: string, p: Parse)
    requires ':' !in g && !AllHex(g) && (Pton4(p.tok).None? || |p.out| + 4 > 16)
    ensures ScanText(g + rest, p) == None
    decreases |g|
  {
    assert (g + rest)[0] == g[0] && (g + rest)[1..] == g[1..] + rest;
    if IsHex(g[0]) && p.val * 16 + HexValue(g[0]) <= 0xffff {
      assert forall i :: 1 <= i < |g| ==> g[i] == g[1..][i - 1];
      BadCharRejects(g[1..], rest, p.(saw := true, val := p.val * 16 + HexValue(g[0])));
    }
  }

  lemma ColonRejectsQuad(g: string, rest: string)
    ensures Pton4(g + (":" + rest)).None?
  {
    var s := g + (":" + rest);
    assert s[|g|] == ':';
    if Pton4(s).Some? { QuadHasNoColon(s); }
  }

  /** What the loop does with a piece that a colon follows. */
  function AfterInner(g: string, rest: string, p: Parse): Option<Parse> {
    if g == "" then
      if p.colonp != -1 then None else Some(p.(colonp := |p.out|, tok := rest))
    else if IsGroup(g) && |p.out| + 2 <= 16 then
      Some(p.(out := p.out + Bytes([HexFold(0, g)]), tok := rest))
    else None
  }

  lemma BytesOne(w: nat)
    ensures Bytes([w]) == [w / 256, w % 256]
  {
    assert Bytes([w][..0]) == [];
  }

  lemma InnerPiece(g: string, rest: string, p: Parse)
    requires ':' !in g && !p.saw && p.val == 0 && p.tok == g + (":" + rest)
    ensures ScanText(g + (":" + rest), p) ==
            var q := AfterInner(g, rest, p); if q.None? then None else ScanText(rest, q.value)
  {
    var tail := ":" + rest;
    assert tail[0] == ':' && tail[1..] == rest;
    if g == "" {
      assert g + tail == tail;
    } else if !AllHex(g) {
      ColonRejectsQuad(g, rest);
      BadCharRejects(g, tail, p);
    } else if HexFold(0, g) > 0xffff {
      DigitsOverflow(g, tail, p);
    } else {
      DigitsScan(g, tail, p);
      BytesOne(HexFold(0, g));
    }
  }

  lemma {:induction false} OctetIsSmallHex(g: string)
    requires Digits(g)
    ensures AllHex(g)
    ensures Value(g) < 1 ==> HexFold(0, g) < 1
    ensures Value(g) < 10 ==> HexFold(0, g) < 0x10
    ensures Value(g) < 100 ==> HexFold(0, g) < 0x100
    ensures Value(g) < 1000 ==> HexFold(0, g) < 0x1000
  {
    if g != "" {
      OctetIsSmallHex(g[..|g| - 1]);
      assert IsDigit(g[|g| - 1]);
    }
  }

  /** A quad is its first octet, a dot and the rest. */
  lemma QuadOpens(g: string) returns (rest: string)
    requires IsQuad(g)
    ensures g == Split(g)[0] + ("." + rest)
  {
    var gs := Split(g);
    SplitJoins(g);
    assert gs[..3][..2][..1] == gs[..1] && gs[..3][..2] == gs[..2];
    rest := gs[1] + "." + gs[2] + "." + gs[3];
    assert Join(gs[..1]) == gs[0];
    assert Join(gs[..2]) == gs[0] + "." + gs[1] by { assert gs[..2][..1] == gs[..1]; }
    assert Join(gs[..3]) == gs[0] + "." + gs[1] + "." + gs[2];
    assert Join(gs) == gs[0] + "." + gs[1] + "." + gs[2] + "." + gs[3];
    assert gs[0] + "." + gs[1] + "." + gs[2] + "." + gs[3] == gs[0] + ("." + rest);
  }

  lemma QuadNotHex(g: string)
    requires IsQuad(g)
    ensures !AllHex(g)
  {
    var rest := QuadOpens(g);
    assert g[|Split(g)[0]|] == '.';
  }

  /** The last piece as a quad. */
  lemma QuadPiece(g: string, p: Parse)
    requires IsQuad(g) && p.val == 0 && p.tok == g && |p.out| + 4 <= 16
    ensures var q := ScanText(g, p);
            q.Some? && !q.value.saw && q.value.out == p.out + Values(Split(g)) && q.value.colonp == p.colonp
  {
    var rest := QuadOpens(g);
    var first := Split(g)[0];
    assert Octet(first);
    OctetIsSmallHex(first);
    DigitsScan(first, "." + rest, p);
    assert ("." + rest)[0] == '.';
    Pton4Exact(g);
  }

  /** Whether the last piece goes through, from a state with no group pending. */
  predicate LastFits(g: string, p: Parse) {
    LastOk(g) && (IsQuad(g) ==> |p.out| + 4 <= 16)
  }

  lemma LastPiece(g: string, p: Parse)
    requires ':' !in g && !p.saw && p.val == 0 && p.tok == g
    ensures ScanText(g, p).Some? <==> LastFits(g, p)
    ensures LastFits(g, p) ==>
              var q := ScanText(g, p).value;
              && q.colonp == p.colonp && q.saw == IsGroup(g)
              && (if q.saw then PutWord(q).out else q.out) == p.out + LastBytes(g)
  {
    assert g + "" == g;
    if g == "" {
    } else if AllHex(g) {
      if IsQuad(g) { QuadNotHex(g); }
      if HexFold(0, g) <= 0xffff {
        DigitsScan(g, "", p);
        BytesOne(HexFold(0, g));
      } else {
        DigitsOverflow(g, "", p);
      }
    } else if IsQuad(g) && |p.out| + 4 <= 16 {
      QuadPiece(g, p);
    } else {
      Pton4Exact(g);
      BadCharRejects(g, "", p);
    }
  }

  // ---- The loop on all pieces ----

  /** What the pieces followed by colons leave behind. */
  function ReadInner(gs: seq<string>, p: Parse): Option<Parse>
    requires |gs| >= 1
    decreases |gs|
  {
    if |gs| == 1 then Some(p)
    else
      var q := AfterInner(gs[0], JoinColons(gs[1..]), p);
      if q.None? then None else ReadInner(gs[1..], q.value)
  }

  lemma {:induction false} ScanPieces(gs: seq<string>, p: Parse)
    requires |gs| >= 1 && ColonFree(gs) && !p.saw && p.val == 0 && p.tok == JoinColons(gs)
    ensures ScanText(JoinColons(gs), p) ==
            var q := ReadInner(gs, p); if q.None? then None else ScanText(gs[|gs| - 1], q.value)
    ensures ReadInner(gs, p).Some? ==>
              var q := ReadInner(gs, p).value; !q.saw && q.val == 0 && q.tok == gs[|gs| - 1]
    decreases |gs|
  {
    if |gs| > 1 {
      var rest := JoinColons(gs[1..]);
      InnerPiece(gs[0], rest, p);
      var q := AfterInner(gs[0], rest, p);
      if q.Some? { ScanPieces(gs[1..], q.value); }
    }
  }

  function Opened(p: Parse): nat {
    if p.colonp != -1 then 1 else 0
  }

  /** In closed form: every inner piece a group or empty, at most one empty in all,
      and room for the bytes. */
  predicate InnerFits(inner: seq<string>, p: Parse) {
    InnerOk(inner) && Empties(inner) + Opened(p) <= 1 && |p.out| + 2 * |Vals(inner)| <= 16
  }

  lemma {:induction false} InnerClosedForm(gs: seq<string>, p: Parse)
    requires |gs| >= 1 && |p.out| <= 16
    ensures var inner := gs[..|gs| - 1]; var q := ReadInner(gs, p);
            && (q.Some? <==> InnerFits(inner, p))
            && (q.Some? ==>
                  && q.value.out == p.out + Bytes(Vals(inner))
                  && q.value.colonp == if Empties(inner) == 0 then p.colonp else |p.out| + 2 * Lead(inner))
    decreases |gs|
  {
    var inner := gs[..|gs| - 1];
    if |gs| == 1 {
      assert inner == [];
      assert p.out + [] == p.out;
    } else {
      assert inner[0] == gs[0] && inner[1..] == gs[1..][..|gs| - 2];
      var step := AfterInner(gs[0], JoinColons(gs[1..]), p);
      InnerTail(inner);
      if step.Some? {
        InnerClosedForm(gs[1..], step.value);
        if InnerOk(inner) { ValsFront(inner, p.out); }
      }
    }
  }

  lemma InnerTail(inner: seq<string>)
    requires inner != []
    ensures InnerOk(inner) <==> (inner[0] == "" || IsGroup(inner[0])) && InnerOk(inner[1..])
  {
    if (inner[0] == "" || IsGroup(inner[0])) && InnerOk(inner[1..]) {
      forall i | 0 <= i < |inner| ensures inner[i] == "" || IsGroup(inner[i]) {
        if i > 0 { assert inner[i] == inner[1..][i - 1]; }
      }
    }
  }

  lemma ValsFront(inner: seq<string>, out: seq<nat>)
    requires inner != [] && InnerOk(inner) && InnerOk(inner[1..])
    ensures inner[0] == "" ==> Vals(inner) == Vals(inner[1..])
    ensures inner[0] != "" ==>
              out + Bytes(Vals(inner)) == out + Bytes([HexFold(0, inner[0])]) + Bytes(Vals(inner[1..]))
  {
    if inner[0] != "" { BytesConcat([HexFold(0, inner[0])], Vals(inner[1..])); }
  }

  /** A well-formed body fits: no piece of it is turned away for want of room. */
  lemma BodyFits(gs: seq<string>, src: string)
    requires |gs| >= 1 && BodyOk(gs)
    ensures InnerFits(gs[..|gs| - 1], Parse([], -1, false, 0, src))
    ensures forall q: Parse :: q.out == Bytes(Vals(gs[..|gs| - 1])) ==> LastFits(gs[|gs| - 1], q)
  {
    var last := gs[|gs| - 1];
    if IsQuad(last) {
      QuadNotHex(last);
      assert |LastBytes(last)| == 4;
    }
  }

  /** The loop as far as the last piece, from the start. */
  lemma InnerExact(gs: seq<string>, src: string)
    requires |gs| >= 1 && ColonFree(gs) && src == JoinColons(gs)
    ensures var p := Parse([], -1, false, 0, src); var inner := gs[..|gs| - 1]; var q := ReadInner(gs, p);
            && (q.Some? <==> InnerFits(inner, p))
            && ScanText(src, p) == (if q.None? then None else ScanText(gs[|gs| - 1], q.value))
            && (q.Some? ==>
                  && q.value.out == Bytes(Vals(inner)) && !q.value.saw && q.value.val == 0
                  && q.value.tok == gs[|gs| - 1]
                  && q.value.colonp == if Empties(inner) == 0 then -1 else 2 * Lead(inner))
  {
    var p := Parse([], -1, false, 0, src);
    ScanPieces(gs, p);
    InnerClosedForm(gs, p);
    if ReadInner(gs, p).Some? {
      assert [] + Bytes(Vals(gs[..|gs| - 1])) == Bytes(Vals(gs[..|gs| - 1]));
    }
  }

  /** The whole loop and what follows it, on a text's pieces. */
  lemma BodyExact(gs: seq<string>, src: string)
    requires |gs| >= 1 && ColonFree(gs) && src == JoinColons(gs)
    ensures ParseAll(src).Some? <==> BodyOk(gs)
    ensures BodyOk(gs) ==> ParseAll(src).value == Meaning(gs)
  {
    var p := Parse([], -1, false, 0, src);
    var last, q := gs[|gs| - 1], ReadInner(gs, p);
    InnerExact(gs, src);
    if BodyOk(gs) { BodyFits(gs, src); }
    if q.Some? {
      LastPiece(last, q.value);
      if LastFits(last, q.value) { FinishExact(gs, q.value, ScanText(last, q.value).value); }
    }
  }

  /** The end of the parse, given what the pieces left. */
  lemma FinishExact(gs: seq<string>, q: Parse, r: Parse)
    requires |gs| >= 1 && InnerOk(gs[..|gs| - 1]) && Empties(gs[..|gs| - 1]) <= 1 && LastFits(gs[|gs| - 1], q)
    requires q.out == Bytes(Vals(gs[..|gs| - 1])) && |q.out| <= 16
    requires q.colonp == if Empties(gs[..|gs| - 1]) == 0 then -1 else 2 * Lead(gs[..|gs| - 1])
    requires r.colonp == q.colonp && r.saw == IsGroup(gs[|gs| - 1])
    requires (if r.saw then PutWord(r).out else r.out) == q.out + LastBytes(gs[|gs| - 1])
    ensures Finish(r).Some? <==> BodyOk(gs)
    ensures BodyOk(gs) ==> Finish(r).value == Meaning(gs)
  {
    LeadBound(gs[..|gs| - 1]);
  }

  lemma LeadingColon(src: string)
    ensures src != "" && src[0] == ':' <==> |Cut(src)| > 1 && Cut(src)[0] == ""
    ensures src != "" && src[0] == ':' ==> Cut(src)[1..] == Cut(src[1..])
  {
  }

  /** `inet_pton6` accepts exactly these texts, with exactly this meaning. */
  lemma Pton6Exact(src: string)
    ensures Pton6(src).Some? <==> IsAddress(src)
    ensures IsAddress(src) ==> Pton6(src).value == Address(src)
  {
    CutJoins(src);
    LeadingColon(src);
    if src != "" && src[0] == ':' {
      CutJoins(src[1..]);
      LeadingColon(src[1..]);
      BodyExact(Cut(src[1..]), src[1..]);
    } else {
      BodyExact(Cut(src), src);
    }
  }
}
