/** The form of what `inet_ntop4` and `inet_ntop6` print (unpv13e/libfree/inet_ntop.c;
RFC 5952): which addresses end in a dotted quad, and that numbers are written the
one way without leading zeros or capital letters.
*/
module Inet6Form {
  import opened Basics
  import opened Inet4
  import opened Inet6Print
  import opened Inet6Parse
  import opened Inet6RoundTrip
  import opened Inet6Grammar
  import opened Inet6Rfc

  // ---- Numbers ----

  predicate LowerHex(c: char) {
    '0' <= c <= '9' || 'a' <= c <= 'f'
  }

  predicate AllLower(t: string) {
    forall i :: 0 <= i < |t| ==> LowerHex(t[i])
  }

  /** No leading zero, except zero itself. */
  predicate Shortest(t: string) {
    |t| >= 1 && (|t| > 1 ==> t[0] != '0')
  }

  lemma {:induction false} HexForm(w: nat)
    ensures AllLower(Hex(w)) && Shortest(Hex(w)) && (w > 0 ==> Hex(w)[0] != '0')
  {
    if w >= 16 { HexForm(w / 16); }
  }

  lemma LowerDigit(c: char)
    requires LowerHex(c)
    ensures HexDigit(HexValue(c)) == c
  {
  }

  /** A number without a leading zero is not zero. */
  lemma {:induction false} FoldPositive(t: string)
    requires AllHex(t) && t != "" && t[0] != '0'
    ensures HexFold(0, t) >= 1
  {
    if |t| > 1 {
      FoldPositive(t[..|t| - 1]);
    } else {
      assert t[..0] == "";
    }
  }

  /** A group is the only way to write its value in small letters without leading zeros. */
  lemma {:induction false} HexUnique(t: string)
    requires AllLower(t) && Shortest(t)
    ensures Hex(HexFold(0, t)) == t
  {
    var n := |t| - 1;
    LowerDigit(t[n]);
    if n == 0 {
      assert t[..0] == "";
    } else {
      FoldPositive(t[..n]);
      HexUnique(t[..n]);
      LastDigit(HexFold(0, t[..n]), HexValue(t[n]));
      assert t == t[..n] + [t[n]];
    }
  }

  lemma LastDigit(v: nat, d: nat)
    requires v >= 1 && d < 16
    ensures Hex(v * 16 + d) == Hex(v) + [HexDigit(d)]
  {
    assert (v * 16 + d) / 16 == v && (v * 16 + d) % 16 == d;
  }

  lemma {:induction false} DecForm(n: nat)
    ensures Digits(Dec(n)) && Shortest(Dec(n)) && (n > 0 ==> Dec(n)[0] != '0')
  {
    DecReads(n);
    if n >= 10 { DecForm(n / 10); }
  }

  lemma {:induction false} ValuePositive(g: string)
    requires Digits(g) && g != "" && g[0] != '0'
    ensures Value(g) >= 1
  {
    if |g| > 1 {
      ValuePositive(g[..|g| - 1]);
    } else {
      assert g[..0] == "";
    }
  }

  lemma {:induction false} DecUnique(g: string)
    requires Digits(g) && Shortest(g)
    ensures Dec(Value(g)) == g
  {
    var n := |g| - 1;
    if n == 0 {
      assert g[..0] == "";
    } else {
      ValuePositive(g[..n]);
      DecUnique(g[..n]);
      var v, d := Value(g[..n]), DigitValue(g[n]);
      assert (v * 10 + d) / 10 == v && (v * 10 + d) % 10 == d;
      assert g == g[..n] + [g[n]];
    }
  }

  ghost predicate AllShortest(gs: seq<string>) {
    forall i :: 0 <= i < |gs| ==> Shortest(gs[i])
  }

  lemma QuadTextShortest(b: seq<Byte>)
    requires |b| == 4
    ensures AllShortest(Split(QuadText(b)))
  {
    QuadTextSplits(b);
    DecForm(b[0]); DecForm(b[1]); DecForm(b[2]); DecForm(b[3]);
  }

  lemma OctetsUnique(gs: seq<string>, b: seq<Byte>)
    requires |b| == 4 && Octets(gs) && Values(gs) == b && AllShortest(gs)
    ensures gs == [Dec(b[0]), Dec(b[1]), Dec(b[2]), Dec(b[3])]
  {
    forall i | 0 <= i < 4 ensures gs[i] == Dec(b[i]) {
      assert Octet(gs[i]) && Shortest(gs[i]) && Values(gs)[i] == b[i];
      DecUnique(gs[i]);
    }
  }

  /** `inet_ntop4` prints the one dotted quad without leading zeros that `inet_pton4`
      reads as these bytes. */
  lemma QuadTextUnique(b: seq<Byte>, s: string)
    requires |b| == 4
    ensures s == QuadText(b) <==> Pton4(s) == Some(b) && AllShortest(Split(s))
  {
    if s == QuadText(b) {
      QuadRoundTrip(b);
      QuadTextShortest(b);
    } else if Pton4(s) == Some(b) && AllShortest(Split(s)) {
      Pton4Exact(s);
      OctetsUnique(Split(s), b);
      QuadTextSplits(b);
      SplitJoins(s);
      SplitJoins(QuadText(b));
    }
  }

  // ---- Which addresses end in a quad ----

  /** ::a.b.c.d with a.b not zero. */
  predicate Compatible(b: seq<Byte>)
    requires |b| == 16
  {
    (forall k :: 0 <= k < 12 ==> b[k] == 0) && (b[12] != 0 || b[13] != 0)
  }

  /** ::ffff:a.b.c.d */
  predicate Mapped(b: seq<Byte>)
    requires |b| == 16
  {
    (forall k :: 0 <= k < 10 ==> b[k] == 0) && b[10] == 0xff && b[11] == 0xff
  }

  lemma ZeroWords(b: seq<Byte>, n: nat)
    requires |b| == 16 && n <= 8
    ensures (forall k :: 0 <= k < n ==> Words(b)[k] == 0) <==> (forall k :: 0 <= k < 2 * n ==> b[k] == 0)
  {
    if forall k :: 0 <= k < n ==> Words(b)[k] == 0 {
      forall k | 0 <= k < 2 * n ensures b[k] == 0 { ZeroWordZeroByte(b, k); }
    }
    if forall k :: 0 <= k < 2 * n ==> b[k] == 0 {
      forall k | 0 <= k < n ensures Words(b)[k] == 0 { assert b[2 * k] == 0 && b[2 * k + 1] == 0; }
    }
  }

  /** A leading run of at least five zero words that ends before the last two is the one
      compressed. */
  lemma LeadingRun(ws: seq<nat>, n: nat)
    requires |ws| == 8 && 5 <= n <= 6 && (forall k :: 0 <= k < n ==> ws[k] == 0) && ws[n] != 0
    ensures BestRun(ws) == Run(0, n)
  {
    BestRunIsLeftmostLongest(ws);
    assert ZeroRun(ws, 0, 2) && ZeroRun(ws, 0, n);
    var run := BestRun(ws);
    NotInRun(ws, run.base, run.len, n);
  }

  lemma RunStops(ws: seq<nat>)
    requires |ws| == 8 && BestRun(ws).base == 0
    ensures BestRun(ws).len >= 2 && forall k :: 0 <= k < BestRun(ws).len <= 8 ==> ws[k] == 0
    ensures BestRun(ws).len == 6 ==> ws[6] != 0
  {
    BestRunIsLeftmostLongest(ws);
    if BestRun(ws).len == 6 && ws[6] == 0 { assert ZeroRun(ws, 0, 7); }
  }

  lemma EmbedsIff(b: seq<Byte>)
    requires |b| == 16
    ensures var ws := Words(b);
            && (Embeds(ws, BestRun(ws)) && BestRun(ws).len == 6 <==> Compatible(b))
            && (Embeds(ws, BestRun(ws)) && BestRun(ws).len == 5 <==> Mapped(b))
  {
    var ws := Words(b);
    assert ws[5] == Word(b[10], b[11]) && ws[6] == Word(b[12], b[13]);
    ZeroWords(b, 6);
    ZeroWords(b, 5);
    if Compatible(b) { LeadingRun(ws, 6); }
    if Mapped(b) { LeadingRun(ws, 5); }
    if BestRun(ws).base == 0 { RunStops(ws); }
  }

  // ---- The text ----

  /** What a text without a quad is made of. */
  predicate Colonic(t: string) {
    forall i :: 0 <= i < |t| ==> LowerHex(t[i]) || t[i] == ':'
  }

  lemma {:induction false} ColonsColonic(ws: seq<nat>)
    ensures Colonic(Colons(ws))
  {
    if ws != [] {
      HexForm(ws[0]);
      ColonsColonic(ws[1..]);
    }
  }

  lemma GroupsColonic(ws: seq<nat>)
    ensures Colonic(Groups(ws))
  {
    if ws != [] {
      HexForm(ws[0]);
      ColonsColonic(ws[1..]);
    }
  }

  lemma WrittenFfff()
    ensures Hex(0xffff) == "ffff"
  {
    assert Hex(0xf) == "f" && Hex(0xff) == Hex(0xf) + "f" && Hex(0xfff) == Hex(0xff) + "f";
    assert Hex(0xffff) == Hex(0xfff) + "f";
  }

  /** The two forms with a quad. */
  lemma QuadForms(b: seq<Byte>)
    requires |b| == 16
    ensures Compatible(b) ==> Text(b) == "::" + QuadText(b[12..])
    ensures Mapped(b) ==> Text(b) == "::ffff:" + QuadText(b[12..])
  {
    EmbedsIff(b);
    WrittenFfff();
    if Compatible(b) || Mapped(b) { EmbeddedText(b, Words(b)); }
    if Mapped(b) {
      var q := QuadText(b[12..]);
      assert "::" + ("ffff" + (":" + q)) == "::ffff:" + q;
    }
  }

  /** Every other address: its groups, with the leftmost longest run of at least two
      zero words, if there is one, written `::`. */
  lemma GroupForm(b: seq<Byte>) returns (u: seq<nat>, v: seq<nat>)
    requires |b| == 16 && !Compatible(b) && !Mapped(b)
    ensures var ws := Words(b);
            if exists k :: ZeroRun(ws, k, 2) then
              && |u| + |v| <= 8 && u + Zeros(8 - |u| - |v|) + v == ws && Leftmost(ws, 8, |u|, 8 - |u| - |v|)
              && Text(b) == Groups(u) + ("::" + Groups(v))
            else u == ws && Text(b) == Groups(u)
  {
    var ws := Words(b);
    var run := BestRun(ws);
    EmbedsIff(b);
    BestRunIsLeftmostLongest(ws);
    if run.base == -1 {
      TextPlain(b);
      u, v := ws, [];
    } else {
      TextCompressed(b);
      u, v := ws[..run.base], ws[run.base + run.len..];
      AroundRun(ws, run.base, run.len);
      assert ZeroRun(ws, run.base, 2);
    }
  }

  lemma AroundRun(ws: seq<nat>, base: nat, len: nat)
    requires ZeroRun(ws, base, len)
    ensures ws[..base] + Zeros(len) + ws[base + len..] == ws
  {
  }

  lemma GroupFormColonic(b: seq<Byte>)
    requires |b| == 16 && !Compatible(b) && !Mapped(b)
    ensures Colonic(Text(b))
  {
    var u, v := GroupForm(b);
    GroupsColonic(u);
    GroupsColonic(v);
  }

  lemma QuadIsDotted(b: seq<Byte>)
    requires |b| == 4
    ensures '.' in QuadText(b) && forall c :: c in QuadText(b) ==> IsDigit(c) || c == '.'
  {
    DecReads(b[0]); DecReads(b[1]); DecReads(b[2]); DecReads(b[3]);
    assert QuadText(b)[|Dec(b[0])|] == '.';
  }

  /** A dot is printed exactly for the two kinds of addresses that hold an IPv4 address,
      and no capital letter ever (section 4.3 of RFC 5952). */
  lemma DottedIff(b: seq<Byte>)
    requires |b| == 16
    ensures '.' in Text(b) <==> Compatible(b) || Mapped(b)
    ensures forall c :: c in Text(b) ==> LowerHex(c) || c == ':' || c == '.'
  {
    QuadForms(b);
    QuadIsDotted(b[12..]);
    if Compatible(b) || Mapped(b) {
      var q := QuadText(b[12..]);
      assert forall c :: c in "::ffff:" + q ==> LowerHex(c) || c == ':' || c in q;
      assert forall c :: c in "::" + q ==> c == ':' || c in q;
    } else {
      GroupFormColonic(b);
    }
  }

  // ---- The groups of the text ----

  ghost predicate Tidy(gs: seq<string>) {
    forall i :: 0 <= i < |gs| ==> gs[i] == "" || '.' in gs[i] || (AllLower(gs[i]) && Shortest(gs[i]))
  }

  lemma {:induction false} GroupsTidy(ws: seq<nat>)
    requires Fits(ws)
    ensures Tidy(Cut(Groups(ws)))
  {
    if ws == [] {
      CutWhole("");
    } else {
      HexIsGroup(ws[0]);
      HexForm(ws[0]);
      if |ws| == 1 {
        assert Colons(ws[1..]) == "" && Hex(ws[0]) + "" == Hex(ws[0]);
      } else {
        GroupsTidy(ws[1..]);
        ColonsThenGroups(ws[1..]);
        CutConcat(Hex(ws[0]), Groups(ws[1..]));
      }
    }
  }

  lemma TidyDouble(left: string, right: string)
    requires Tidy(Cut(left)) && Tidy(Cut(right))
    ensures Tidy(Cut(left + ("::" + right)))
  {
    CutDouble(left, right);
  }

  lemma TidyPart(g: string)
    requires ':' !in g && (g == "" || '.' in g || (AllLower(g) && Shortest(g)))
    ensures Tidy(Cut(g))
  {
    CutWhole(g);
  }

  lemma CompatibleTidy(q: string)
    requires ':' !in q && '.' in q
    ensures Tidy(Cut("::" + q))
  {
    TidyPart("");
    TidyPart(q);
    TidyDouble("", q);
    assert "" + ("::" + q) == "::" + q;
  }

  lemma MappedTidy(q: string)
    requires ':' !in q && '.' in q
    ensures Tidy(Cut("::ffff:" + q))
  {
    TidyPart("");
    TidyPart(q);
    TidyPart("ffff");
    CutConcat("ffff", q);
    TidyDouble("", "ffff" + (":" + q));
    assert "" + ("::" + ("ffff" + (":" + q))) == "::ffff:" + q;
  }

  lemma PartsFit(b: seq<Byte>, u: seq<nat>, v: seq<nat>)
    requires |b| == 16 && |u| + |v| <= 8 && u + Zeros(8 - |u| - |v|) + v == Words(b)
    ensures Fits(u) && Fits(v)
  {
    var ws := Words(b);
    assert forall i :: 0 <= i < |u| ==> u[i] == ws[i];
    assert forall i :: 0 <= i < |v| ==> v[i] == ws[8 - |v| + i];
  }

  lemma GroupFormTidy(b: seq<Byte>)
    requires |b| == 16 && !Compatible(b) && !Mapped(b)
    ensures Tidy(Cut(Text(b)))
  {
    var u, v := GroupForm(b);
    if exists k :: ZeroRun(Words(b), k, 2) {
      PartsFit(b, u, v);
      GroupsTidy(v);
      GroupsTidy(u);
      TidyDouble(Groups(u), Groups(v));
    } else {
      GroupsTidy(u);
    }
  }

  /** Between its colons the text has no group with a leading zero (section 4.1 of
      RFC 5952). */
  lemma NoLeadingZeros(b: seq<Byte>)
    requires |b| == 16
    ensures Tidy(Cut(Text(b)))
  {
    var q := QuadText(b[12..]);
    QuadForms(b);
    QuadIsDotted(b[12..]);
    if Compatible(b) { CompatibleTidy(q); } else if Mapped(b) { MappedTidy(q); } else { GroupFormTidy(b); }
  }
}
