/** Printing then parsing an IPv6 address gives the address back, for every address. */
module Inet6RoundTrip {
  import opened Basics
  import opened Inet4
  import opened Inet6Print
  import opened Inet6Parse

  // ---- Reading one group ----

  predicate AllHex(t: string) {
    forall i :: 0 <= i < |t| ==> IsHex(t[i])
  }

  /** The value after reading digits `t` on top of `v`. */
  function HexFold(v: nat, t: string): nat
    requires AllHex(t)
  {
    if t == "" then v else HexFold(v, t[..|t| - 1]) * 16 + HexValue(t[|t| - 1])
  }

  lemma {:induction false} FoldFront(v: nat, t: string)
    requires AllHex(t) && t != ""
    ensures HexFold(v, t) == HexFold(v * 16 + HexValue(t[0]), t[1..])
  {
    if |t| > 1 {
      var n := |t| - 1;
      FoldFront(v, t[..n]);
      assert t[..n][1..] == t[1..][..n - 1];
    } else {
      assert t[..0] == "" && t[1..] == "";
    }
  }

  lemma {:induction false} FoldGrows(v: nat, t: string)
    requires AllHex(t)
    ensures HexFold(v, t) >= v
  {
    if t != "" { FoldGrows(v, t[..|t| - 1]); }
  }

  lemma {:induction false} DigitsScan(t: string, rest: string, p: Parse)
    requires AllHex(t) && HexFold(p.val, t) <= 0xffff
    ensures ScanText(t + rest, p) == ScanText(rest, p.(saw := p.saw || t != "", val := HexFold(p.val, t)))
  {
    if t == "" {
      assert t + rest == rest;
    } else {
      var v := p.val * 16 + HexValue(t[0]);
      FoldFront(p.val, t);
      FoldGrows(v, t[1..]);
      assert (t + rest)[0] == t[0] && (t + rest)[1..] == t[1..] + rest;
      DigitsScan(t[1..], rest, p.(saw := true, val := v));
    }
  }

  lemma {:induction false} HexReads(w: nat)
    ensures AllHex(Hex(w)) && Hex(w) != "" && HexFold(0, Hex(w)) == w
  {
    if w < 16 {
      assert Hex(w)[..0] == "";
    } else {
      HexReads(w / 16);
      var h := Hex(w);
      assert h[..|h| - 1] == Hex(w / 16);
    }
  }

  lemma HexScan(w: nat, rest: string, p: Parse)
    requires w <= 0xffff && p.val == 0
    ensures ScanText(Hex(w) + rest, p) == ScanText(rest, p.(saw := true, val := w))
  {
    HexReads(w);
    DigitsScan(Hex(w), rest, p);
  }

  // ---- Reading groups joined by single colons ----

  predicate Fits(ws: seq<nat>) {
    forall i :: 0 <= i < |ws| ==> ws[i] <= 0xffff
  }

  function Colons(ws: seq<nat>): string {
    if ws == [] then "" else ":" + Hex(ws[0]) + Colons(ws[1..])
  }

  /** Groups joined by colons. */
  function Groups(ws: seq<nat>): string {
    if ws == [] then "" else Hex(ws[0]) + Colons(ws[1..])
  }

  /** State `p` with all of `ws` read and the last group still pending. */
  ghost predicate Pending(p: Parse, ws: seq<nat>, q: Parse) {
    && ws != [] && q.saw && q.val == ws[|ws| - 1]
    && q.out == p.out + Bytes(ws[..|ws| - 1]) && q.colonp == p.colonp
  }

  /** A colon closes the pending group and the digits after it open the next. */
  lemma ColonScan(w: nat, rest: string, p: Parse)
    requires w <= 0xffff && p.saw && |p.out| + 2 <= 16
    ensures ScanText(":" + (Hex(w) + rest), p)
            == ScanText(rest, PutWord(p).(tok := Hex(w) + rest, saw := true, val := w))
  {
    var tail := Hex(w) + rest;
    assert (":" + tail)[0] == ':' && (":" + tail)[1..] == tail;
    HexScan(w, rest, PutWord(p).(tok := tail));
  }

  lemma PendingNext(p: Parse, p1: Parse, w: nat, ws: seq<nat>, q: Parse)
    requires p.val == w && p1.out == PutWord(p).out && p1.colonp == p.colonp && ws != [] && Pending(p1, ws, q)
    ensures Pending(p, [w] + ws, q)
  {
    var all := [w] + ws;
    assert all[..|all| - 1] == [w] + ws[..|ws| - 1];
    assert Bytes([w]) == [w / 256, w % 256] by { assert Bytes([w][..0]) == []; }
    BytesConcat([w], ws[..|ws| - 1]);
  }

  lemma {:induction false} ColonsScan(w: nat, ws: seq<nat>, rest: string, p: Parse) returns (q: Parse)
    requires Fits(ws) && p.saw && p.val == w && |p.out| + 2 * |ws| <= 16
    ensures ScanText(Colons(ws) + rest, p) == ScanText(rest, q)
    ensures Pending(p, [w] + ws, q)
    decreases |ws|
  {
    if ws == [] {
      q := p;
      assert Colons(ws) + rest == rest;
    } else {
      var more := Colons(ws[1..]) + rest;
      assert Colons(ws) + rest == ":" + (Hex(ws[0]) + more);
      ColonScan(ws[0], more, p);
      var p1 := PutWord(p).(tok := Hex(ws[0]) + more, saw := true, val := ws[0]);
      q := ColonsScan(ws[0], ws[1..], rest, p1);
      assert [ws[0]] + ws[1..] == ws;
      PendingNext(p, p1, w, ws, q);
    }
  }

  lemma GroupsScan(ws: seq<nat>, rest: string, p: Parse) returns (q: Parse)
    requires ws != [] && Fits(ws) && !p.saw && p.val == 0 && |p.out| + 2 * (|ws| - 1) <= 16
    ensures ScanText(Groups(ws) + rest, p) == ScanText(rest, q)
    ensures Pending(p, ws, q)
  {
    assert Groups(ws) + rest == Hex(ws[0]) + (Colons(ws[1..]) + rest);
    HexScan(ws[0], Colons(ws[1..]) + rest, p);
    q := ColonsScan(ws[0], ws[1..], rest, p.(saw := true, val := ws[0]));
    assert [ws[0]] + ws[1..] == ws;
  }

  /** Flushing the pending group completes the bytes. */
  lemma Flush(p: Parse, ws: seq<nat>, q: Parse)
    requires Pending(p, ws, q)
    ensures PutWord(q).out == p.out + Bytes(ws)
  {
    assert Bytes(ws) == Bytes(ws[..|ws| - 1]) + [q.val / 256, q.val % 256];
  }

  /** The groups after `::`, to the end of the text. */
  lemma TailParses(v: seq<nat>, p: Parse)
    requires Fits(v) && !p.saw && p.val == 0 && |p.out| + 2 * |v| <= 16 && 0 <= p.colonp <= |p.out|
    ensures var q := ScanText(Groups(v), p);
            q.Some? && Finish(q.value) == Some(Spread(p.out + Bytes(v), p.colonp))
  {
    if v == [] {
      assert p.out + Bytes(v) == p.out;
    } else {
      var q := GroupsScan(v, "", p);
      assert Groups(v) + "" == Groups(v);
      Flush(p, v, q);
    }
  }

  /** Two colons in a row, the first closing any pending group. */
  lemma DoubleParses(v: seq<nat>, p: Parse)
    requires Fits(v) && p.saw && p.colonp == -1 && |p.out| + 2 + 2 * |v| <= 16
    ensures var q := ScanText("::" + Groups(v), p); var out := PutWord(p).out;
            q.Some? && Finish(q.value) == Some(Spread(out + Bytes(v), |out|))
  {
    var s := "::" + Groups(v);
    assert s[0] == ':' && s[1..] == ":" + Groups(v);
    assert s[1..][0] == ':' && s[1..][1..] == Groups(v);
    var p1 := PutWord(p).(tok := s[1..]);
    TailParses(v, p1.(colonp := |p1.out|, tok := Groups(v)));
  }

  lemma LeadingDoubleParses(v: seq<nat>)
    requires Fits(v) && |v| <= 8
    ensures Pton6("::" + Groups(v)) == Some(Spread(Bytes(v), 0))
  {
    var s, t := "::" + Groups(v), Groups(v);
    assert s[0] == ':' && s[1] == ':';
    assert s[1..][0] == ':' && s[1..][1..] == t;
    var p := Parse([], -1, false, 0, s[1..]);
    assert ScanText(s[1..], p) == ScanText(t, p.(colonp := 0, tok := t));
    TailParses(v, p.(colonp := 0, tok := t));
    assert [] + Bytes(v) == Bytes(v);
  }

  lemma InnerDoubleParses(u: seq<nat>, v: seq<nat>)
    requires u != [] && Fits(u) && Fits(v) && |u| + |v| <= 8
    ensures Pton6(Groups(u) + ("::" + Groups(v))) == Some(Spread(Bytes(u) + Bytes(v), 2 * |u|))
  {
    var s := Groups(u) + ("::" + Groups(v));
    var p := Parse([], -1, false, 0, s);
    HexReads(u[0]);
    assert s[0] == Hex(u[0])[0] && IsHex(s[0]);
    var q := GroupsScan(u, "::" + Groups(v), p);
    Flush(p, u, q);
    DoubleParses(v, q);
    assert [] + Bytes(u) == Bytes(u);
  }

  lemma NoGroupsBefore(u: seq<nat>, v: seq<nat>)
    requires u == []
    ensures Groups(u) + ("::" + Groups(v)) == "::" + Groups(v) && u + v == v
  {
  }

  /** Any groups around one `::` parse to their bytes, spread by the shift. */
  lemma AroundDoubleParses(u: seq<nat>, v: seq<nat>)
    requires Fits(u) && Fits(v) && |u| + |v| <= 8
    ensures Pton6(Groups(u) + ("::" + Groups(v))) == Some(Spread(Bytes(u + v), 2 * |u|))
  {
    if u == [] {
      LeadingDoubleParses(v);
      NoGroupsBefore(u, v);
    } else {
      InnerDoubleParses(u, v);
      BytesConcat(u, v);
    }
  }

  /** Eight groups without `::` parse to their bytes. */
  lemma PlainParses(ws: seq<nat>)
    requires Fits(ws) && |ws| == 8
    ensures Pton6(Groups(ws)) == Some(Bytes(ws))
  {
    var s := Groups(ws);
    var p := Parse([], -1, false, 0, s);
    HexReads(ws[0]);
    assert s[0] == Hex(ws[0])[0] && IsHex(s[0]);
    var q := GroupsScan(ws, "", p);
    assert s + "" == s;
    Flush(p, ws, q);
    assert [] + Bytes(ws) == Bytes(ws);
  }

  // ---- An embedded quad ----

  lemma {:induction false} FoldBound(t: string)
    requires AllHex(t) && |t| <= 3
    ensures |t| == 0 ==> HexFold(0, t) < 1
    ensures |t| <= 1 ==> HexFold(0, t) < 0x10
    ensures |t| <= 2 ==> HexFold(0, t) < 0x100
    ensures HexFold(0, t) < 0x1000
  {
    if t != "" { FoldBound(t[..|t| - 1]); }
  }

  /** The digits before the first dot are also read as a group, harmlessly. */
  lemma QuadScan(b: seq<Byte>, p: Parse)
    requires |b| == 4 && |p.out| <= 12 && p.val == 0 && p.tok == QuadText(b)
    ensures var q := ScanText(QuadText(b), p);
            q.Some? && !q.value.saw && q.value.out == p.out + b && q.value.colonp == p.colonp
  {
    var d, rest := Dec(b[0]), "." + Dec(b[1]) + "." + Dec(b[2]) + "." + Dec(b[3]);
    assert QuadText(b) == d + rest;
    DecIsHex(b[0]);
    DigitsScan(d, rest, p);
    assert rest[0] == '.';
    QuadRoundTrip(b);
  }

  lemma DecIsHex(n: Byte)
    ensures AllHex(Dec(n)) && HexFold(0, Dec(n)) <= 0xffff
  {
    DecReads(n);
    DecLength(n);
    FoldBound(Dec(n));
  }

  /** `::` followed by a dotted quad. */
  lemma DoubleQuadParses(b: seq<Byte>)
    requires |b| == 4
    ensures Pton6("::" + QuadText(b)) == Some(Spread(b, 0))
  {
    var s, t := "::" + QuadText(b), QuadText(b);
    assert s[0] == ':' && s[1] == ':';
    assert s[1..][0] == ':' && s[1..][1..] == t;
    var p := Parse([], -1, false, 0, s[1..]);
    QuadScan(b, p.(colonp := 0, tok := t));
    var q := ScanText(s[1..], p);
    assert q.value.out == [] + b;
    assert q.value.out == b;
  }

  /** `::`, one group, then a dotted quad. */
  lemma DoubleGroupQuadParses(w: nat, b: seq<Byte>)
    requires w <= 0xffff && |b| == 4
    ensures Pton6("::" + (Hex(w) + (":" + QuadText(b)))) == Some(Spread([w / 256, w % 256] + b, 0))
  {
    var m := Hex(w) + (":" + QuadText(b));
    var s := "::" + m;
    assert s[0] == ':' && s[1] == ':';
    assert s[1..][0] == ':' && s[1..][1..] == m;
    GroupQuadScan(w, b, Parse([], 0, false, 0, m));
  }

  lemma GroupQuadScan(w: nat, b: seq<Byte>, p: Parse)
    requires w <= 0xffff && |b| == 4 && p.out == [] && !p.saw && p.val == 0
    ensures var q := ScanText(Hex(w) + (":" + QuadText(b)), p);
            q.Some? && !q.value.saw && q.value.out == [w / 256, w % 256] + b && q.value.colonp == p.colonp
  {
    var t := QuadText(b);
    HexScan(w, ":" + t, p);
    var p1 := p.(saw := true, val := w);
    assert (":" + t)[0] == ':' && (":" + t)[1..] == t;
    assert PutWord(p1).out == [w / 256, w % 256];
    QuadScan(b, PutWord(p1).(tok := t));
  }

  // ---- The printer's forms ----

  lemma {:induction false} ColonsAppend(ws: seq<nat>, w: nat)
    ensures Colons(ws + [w]) == Colons(ws) + (":" + Hex(w))
  {
    if ws == [] {
      assert (ws + [w])[1..] == [] && Colons([]) == "";
    } else {
      assert (ws + [w])[1..] == ws[1..] + [w];
      ColonsAppend(ws[1..], w);
    }
  }

  /** Words that each print with their colon. */
  lemma {:induction false} FlatColons(ps: seq<string>, ws: seq<nat>)
    requires |ps| == |ws| && forall i :: 0 <= i < |ps| ==> ps[i] == ":" + Hex(ws[i])
    ensures Flat(ps) == Colons(ws)
  {
    if ps != [] {
      var n := |ps| - 1;
      FlatColons(ps[..n], ws[..n]);
      ColonsAppend(ws[..n], ws[n]);
      assert ws == ws[..n] + [ws[n]];
    }
  }

  lemma FlatSingle(p: string)
    ensures Flat([p]) == p
  {
    assert [p][..0] == [];
    assert Flat([p][..0]) == "";
  }

  /** Words from the first on. */
  lemma FlatGroups(ps: seq<string>, ws: seq<nat>)
    requires |ps| == |ws| && ps != [] && ps[0] == Hex(ws[0])
    requires forall i :: 1 <= i < |ps| ==> ps[i] == ":" + Hex(ws[i])
    ensures Flat(ps) == Groups(ws)
  {
    assert ps == [ps[0]] + ps[1..];
    FlatConcat([ps[0]], ps[1..]);
    FlatSingle(ps[0]);
    FlatColons(ps[1..], ws[1..]);
  }

  lemma {:induction false} FlatEmpty(ps: seq<string>)
    requires forall i :: 0 <= i < |ps| ==> ps[i] == ""
    ensures Flat(ps) == ""
  {
    if ps != [] { FlatEmpty(ps[..|ps| - 1]); }
  }

  /** The run prints as one colon. */
  lemma FlatRun(ps: seq<string>)
    requires ps != [] && ps[0] == ":" && forall i :: 1 <= i < |ps| ==> ps[i] == ""
    ensures Flat(ps) == ":"
  {
    assert ps == [ps[0]] + ps[1..];
    FlatConcat([ps[0]], ps[1..]);
    FlatSingle(ps[0]);
    FlatEmpty(ps[1..]);
  }

  lemma FlatTwo(ps: seq<string>, i: nat)
    requires i <= |ps|
    ensures Flat(ps) == Flat(ps[..i]) + Flat(ps[i..])
  {
    assert ps == ps[..i] + ps[i..];
    FlatConcat(ps[..i], ps[i..]);
  }

  lemma FlatThree(ps: seq<string>, i: nat, j: nat)
    requires i <= j <= |ps|
    ensures Flat(ps) == Flat(ps[..i]) + (Flat(ps[i..j]) + Flat(ps[j..]))
  {
    var tail := ps[i..];
    assert tail[..j - i] == ps[i..j] && tail[j - i..] == ps[j..];
    FlatTwo(ps, i);
    FlatTwo(tail, j - i);
  }

  lemma TextPlain(b: seq<Byte>)
    requires |b| == 16 && BestRun(Words(b)).base == -1
    ensures Text(b) == Groups(Words(b))
  {
    FlatGroups(Pieces(b, Words(b), BestRun(Words(b))), Words(b));
  }

  lemma FlatBefore(b: seq<Byte>, ws: seq<nat>, run: Run, ps: seq<string>, base: nat)
    requires |b| == 16 && |ws| == 8 && !Embeds(ws, run) && ps == Pieces(b, ws, run) && run.base == base <= 8
    ensures Flat(ps[..base]) == Groups(ws[..base])
  {
    if base > 0 { FlatGroups(ps[..base], ws[..base]); }
  }

  lemma FlatAfter(b: seq<Byte>, ws: seq<nat>, run: Run, ps: seq<string>, end: nat)
    requires |b| == 16 && |ws| == 8 && !Embeds(ws, run) && ps == Pieces(b, ws, run)
    requires 0 <= run.base < end == run.base + run.len <= 8
    ensures Flat(ps[end..]) == Colons(ws[end..])
  {
    forall i | 0 <= i < |ps[end..]| ensures ps[end..][i] == ":" + Hex(ws[end..][i]) {
      assert ps[end..][i] == Piece(b, ws, run, end + i);
    }
    FlatColons(ps[end..], ws[end..]);
  }

  lemma FlatInside(b: seq<Byte>, ws: seq<nat>, run: Run, ps: seq<string>, base: nat, end: nat)
    requires |b| == 16 && |ws| == 8 && ps == Pieces(b, ws, run)
    requires run.base == base < end == base + run.len <= 8
    ensures Flat(ps[base..end]) == ":"
  {
    forall i | 0 <= i < end - base ensures ps[base..end][i] == if i == 0 then ":" else "" {
      assert ps[base..end][i] == Piece(b, ws, run, base + i);
    }
    FlatRun(ps[base..end]);
  }

  lemma ColonsAndTrailer(v: seq<nat>, run: Run)
    requires Trailer(run) == if v == [] then ":" else ""
    ensures Colons(v) + Trailer(run) == ":" + Groups(v)
  {
    if v != [] {
      var h, t := Hex(v[0]), Colons(v[1..]);
      assert ":" + h + t == ":" + (h + t);
      assert Colons(v) + "" == Colons(v);
    }
  }

  lemma Reassociate(x: string, y: string, z: string, w: string)
    requires y + z == ":" + w
    ensures x + (":" + y) + z == x + ("::" + w)
  {
    assert x + (":" + y) + z == x + (":" + (y + z));
    assert ":" + (":" + w) == "::" + w;
  }

  lemma TextCompressed(b: seq<Byte>)
    requires |b| == 16 && BestRun(Words(b)).base != -1 && !Embeds(Words(b), BestRun(Words(b)))
    ensures var ws := Words(b); var run := BestRun(ws);
            && 0 <= run.base && run.len >= 2 && run.base + run.len <= 8
            && Text(b) == Groups(ws[..run.base]) + ("::" + Groups(ws[run.base + run.len..]))
  {
    var ws := Words(b);
    BestRunIsLeftmostLongest(ws);
    var run := BestRun(ws);
    var ps, base, end := Pieces(b, ws, run), run.base, run.base + run.len;
    FlatBefore(b, ws, run, ps, base);
    FlatInside(b, ws, run, ps, base, end);
    FlatAfter(b, ws, run, ps, end);
    FlatThree(ps, base, end);
    ColonsAndTrailer(ws[end..], run);
    Reassociate(Groups(ws[..base]), Colons(ws[end..]), Trailer(run), Groups(ws[end..]));
  }

  lemma FlatPair(x: string, y: string)
    ensures Flat([x, y]) == x + y
  {
    assert [x, y] == [x] + [y];
    FlatConcat([x], [y]);
    FlatSingle(x);
    FlatSingle(y);
  }

  /** The pieces of an embedding address: the run, perhaps ffff, the quad. */
  lemma FlatQuad(b: seq<Byte>, ws: seq<nat>, run: Run, ps: seq<string>)
    requires |b| == 16 && |ws| == 8 && Embeds(ws, run) && ps == Pieces(b, ws, run)
    ensures Flat(ps[6..]) == ":" + QuadText(b[12..])
  {
    assert ps[6] == Piece(b, ws, run, 6) && ps[7] == Piece(b, ws, run, 7);
    assert ps[6..] == [ps[6], ps[7]];
    FlatPair(ps[6], ps[7]);
  }

  lemma FlatMapped(b: seq<Byte>, ws: seq<nat>, run: Run, ps: seq<string>)
    requires |b| == 16 && |ws| == 8 && Embeds(ws, run) && run.len == 5 && ps == Pieces(b, ws, run)
    ensures Flat(ps[5..6]) == ":" + Hex(ws[5])
  {
    assert ps[5] == Piece(b, ws, run, 5);
    assert ps[5..6] == [ps[5]];
    FlatSingle(ps[5]);
  }

  lemma QuadTexts(h: string, t: string)
    ensures ":" + ("" + (":" + t)) == "::" + t
    ensures ":" + ((":" + h) + (":" + t)) == "::" + (h + (":" + t))
  {
  }

  lemma EmbeddedFlat(b: seq<Byte>, ws: seq<nat>, run: Run, ps: seq<string>)
    requires |b| == 16 && |ws| == 8 && Embeds(ws, run) && ps == Pieces(b, ws, run)
    ensures run.len == 6 ==> Flat(ps) == "::" + QuadText(b[12..])
    ensures run.len == 5 ==> Flat(ps) == "::" + (Hex(ws[5]) + (":" + QuadText(b[12..])))
  {
    FlatInside(b, ws, run, ps, 0, run.len);
    assert ps[0..run.len] == ps[..run.len];
    FlatQuad(b, ws, run, ps);
    FlatThree(ps, run.len, 6);
    QuadTexts(Hex(ws[5]), QuadText(b[12..]));
    if run.len == 6 { assert ps[6..6] == []; } else { FlatMapped(b, ws, run, ps); }
  }

  // ---- The round trip ----

  lemma {:induction false} BytesOfZeros(ws: seq<nat>)
    requires forall i :: 0 <= i < |ws| ==> ws[i] == 0
    ensures Bytes(ws) == Zeros(2 * |ws|)
  {
    if ws != [] { BytesOfZeros(ws[..|ws| - 1]); }
  }

  /** Spreading the words around a zero run puts the run's bytes back. */
  lemma SpreadRestores(ws: seq<nat>, base: nat, len: nat)
    requires |ws| == 8 && len >= 1 && ZeroRun(ws, base, len)
    ensures Spread(Bytes(ws[..base] + ws[base + len..]), 2 * base) == Bytes(ws)
  {
    var u, z, v := ws[..base], ws[base..base + len], ws[base + len..];
    assert ws == u + z + v;
    BytesOfZeros(z);
    BytesAround(u, z, v);
    BytesConcat(u, v);
    assert (Bytes(u) + Bytes(v))[..2 * base] == Bytes(u) && (Bytes(u) + Bytes(v))[2 * base..] == Bytes(v);
  }

  lemma BytesAround(u: seq<nat>, z: seq<nat>, v: seq<nat>)
    ensures Bytes(u + z + v) == Bytes(u) + Bytes(z) + Bytes(v)
  {
    BytesConcat(u + z, v);
    BytesConcat(u, z);
  }

  lemma PlainRoundTrip(b: seq<Byte>)
    requires |b| == 16 && BestRun(Words(b)).base == -1
    ensures Pton6(Text(b)) == Some(b)
  {
    TextPlain(b);
    PlainParses(Words(b));
    WordsBack(b);
  }

  lemma CompressedRoundTrip(b: seq<Byte>)
    requires |b| == 16 && BestRun(Words(b)).base != -1 && !Embeds(Words(b), BestRun(Words(b)))
    ensures Pton6(Text(b)) == Some(b)
  {
    var ws := Words(b);
    var run := BestRun(ws);
    TextCompressed(b);
    BestRunIsLeftmostLongest(ws);
    AroundDoubleParses(ws[..run.base], ws[run.base + run.len..]);
    SpreadRestores(ws, run.base, run.len);
    WordsBack(b);
  }

  /** The first words of an embedding address are zero bytes. */
  lemma LeadingZeros(b: seq<Byte>, len: nat)
    requires |b| == 16 && len <= 8 && forall k :: 0 <= k < len ==> Words(b)[k] == 0
    ensures b[..2 * len] == Zeros(2 * len)
  {
    forall k | 0 <= k < 2 * len ensures b[k] == 0 { ZeroWordZeroByte(b, k); }
  }

  lemma ZeroWordZeroByte(b: seq<Byte>, k: nat)
    requires |b| == 16 && k < 16 && Words(b)[k / 2] == 0
    ensures b[k] == 0
  {
    var i := k / 2;
    assert Words(b)[i] == Word(b[2 * i], b[2 * i + 1]);
  }

  lemma RestoreSix(b: seq<Byte>)
    requires |b| == 16 && forall k :: 0 <= k < 6 ==> Words(b)[k] == 0
    ensures Spread(b[12..], 0) == b
  {
    LeadingZeros(b, 6);
    assert b == b[..12] + b[12..];
  }

  lemma RestoreFive(b: seq<Byte>)
    requires |b| == 16 && (forall k :: 0 <= k < 5 ==> Words(b)[k] == 0) && Words(b)[5] == 0xffff
    ensures Spread([0xffff / 256, 0xffff % 256] + b[12..], 0) == b
  {
    LeadingZeros(b, 5);
    assert Words(b)[5] == Word(b[10], b[11]);
    assert b[10] == 255 && b[11] == 255;
    assert b == b[..10] + ([b[10], b[11]] + b[12..]);
  }

  lemma EmbeddedZeros(b: seq<Byte>)
    requires |b| == 16 && Embeds(Words(b), BestRun(Words(b)))
    ensures var ws := Words(b); var len := BestRun(ws).len;
            && 0 <= len <= 8 && (forall k :: 0 <= k < len ==> ws[k] == 0)
  {
    BestRunIsLeftmostLongest(Words(b));
  }

  /** Both embedded forms: the quad behind `::`, or behind `::` and one group. */
  lemma EmbeddedText(b: seq<Byte>, ws: seq<nat>)
    requires |b| == 16 && ws == Words(b) && Embeds(ws, BestRun(ws))
    ensures BestRun(ws).len == 6 ==> Text(b) == "::" + QuadText(b[12..])
    ensures BestRun(ws).len == 5 ==> ws[5] == 0xffff && Text(b) == "::" + (Hex(ws[5]) + (":" + QuadText(b[12..])))
  {
    EmbeddedFlat(b, ws, BestRun(ws), Pieces(b, ws, BestRun(ws)));
  }

  lemma EmbeddedRoundTrip(b: seq<Byte>)
    requires |b| == 16 && Embeds(Words(b), BestRun(Words(b)))
    ensures Pton6(Text(b)) == Some(b)
  {
    EmbeddedText(b, Words(b));
    EmbeddedZeros(b);
    if BestRun(Words(b)).len == 6 {
      DoubleQuadParses(b[12..]);
      RestoreSix(b);
    } else {
      DoubleGroupQuadParses(Words(b)[5], b[12..]);
      RestoreFive(b);
    }
  }

  /** Parsing the printed form of any address returns exactly that address. */
  lemma RoundTrip(b: seq<Byte>)
    requires |b| == 16
    ensures Pton6(Text(b)) == Some(b)
  {
    if BestRun(Words(b)).base == -1 { PlainRoundTrip(b); }
    else if Embeds(Words(b), BestRun(Words(b))) { EmbeddedRoundTrip(b); }
    else { CompressedRoundTrip(b); }
  }

  /** Different addresses print differently, and no printed form has two `::`. */
  lemma PrintingIsInjective(b: seq<Byte>, c: seq<Byte>)
    requires |b| == 16 && |c| == 16
    ensures Text(b) == Text(c) ==> b == c
    ensures Doubles(false, Text(b)) <= 1
  {
    RoundTrip(b);
    RoundTrip(c);
    AcceptsOneDouble(Text(b));
  }
}
