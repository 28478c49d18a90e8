/** Dotted-quad text (unpv13e/libfree: inet_ntop4, inet_pton4, inet_aton).

The reference notion is the list of groups between dots. The two parsers are
one-pass machines; each is shown to accept exactly the texts of its own reference,
and `Aton` to agree with `Pton4` wherever that accepts.
*/
module Inet4 {
  import opened Basics

  predicate IsDigit(c: char) {
    '0' <= c <= '9'
  }

  function DigitValue(c: char): int
    requires IsDigit(c)
  {
    c as int - '0' as int
  }

  // ---- Groups ----

  /** The pieces of a text between its dots, always at least one. */
  function Split(s: string): (gs: seq<string>)
    ensures |gs| >= 1
  {
    if s == "" then [""]
    else
      var n := |s| - 1;
      var gs := Split(s[..n]);
      if s[n] == '.' then gs + [""] else gs[|gs| - 1 := gs[|gs| - 1] + [s[n]]]
  }

  function Join(gs: seq<string>): string
    requires |gs| >= 1
  {
    if |gs| == 1 then gs[0] else Join(gs[..|gs| - 1]) + "." + gs[|gs| - 1]
  }

  /** Splitting loses nothing and leaves no dot inside a piece. */
  lemma {:induction false} SplitJoins(s: string)
    ensures Join(Split(s)) == s
    ensures forall i :: 0 <= i < |Split(s)| ==> '.' !in Split(s)[i]
  {
    if s != "" {
      var n := |s| - 1;
      var gs, gs' := Split(s[..n]), Split(s);
      SplitJoins(s[..n]);
      assert s == s[..n] + [s[n]];
      if s[n] == '.' {
        assert gs'[..|gs'| - 1] == gs;
      } else {
        assert gs'[..|gs'| - 1] == gs[..|gs| - 1];
      }
    }
  }

  /** Splitting a text with a dot-free last piece peels that piece off. */
  lemma {:induction false} SplitLast(u: string, g: string)
    requires '.' !in g
    ensures Split(u + "." + g) == Split(u) + [g]
  {
    var s := u + "." + g;
    var n := |s| - 1;
    if g == "" {
      assert s[..n] == u && s[n] == '.';
    } else {
      var m := |g| - 1;
      assert s[..n] == u + "." + g[..m] && s[n] == g[m];
      SplitLast(u, g[..m]);
      assert g == g[..m] + [g[m]];
    }
  }

  lemma {:induction false} SplitWhole(g: string)
    requires '.' !in g
    ensures Split(g) == [g]
  {
    if g != "" {
      var m := |g| - 1;
      SplitWhole(g[..m]);
      assert g == g[..m] + [g[m]];
    }
  }

  /** A possibly empty run of decimal digits. */
  predicate Digits(g: string) {
    forall i :: 0 <= i < |g| ==> IsDigit(g[i])
  }

  function Value(g: string): nat
    requires Digits(g)
  {
    if g == "" then 0 else 10 * Value(g[..|g| - 1]) + DigitValue(g[|g| - 1])
  }

  predicate Octet(g: string) {
    g != "" && Digits(g) && Value(g) <= 255
  }

  /** The reference: exactly four non-empty decimal groups, each at most 255. */
  predicate IsQuad(s: string) {
    Octets(Split(s))
  }

  predicate Octets(gs: seq<string>) {
    |gs| == 4 && forall i :: 0 <= i < |gs| ==> Octet(gs[i])
  }

  function Values(gs: seq<string>): (vs: seq<nat>)
    requires forall i :: 0 <= i < |gs| ==> Digits(gs[i])
    ensures |vs| == |gs|
    ensures forall i :: 0 <= i < |gs| ==> vs[i] == Value(gs[i])
  {
    seq(|gs|, i requires 0 <= i < |gs| => Value(gs[i]))
  }

  // ---- inet_pton4 ----

  /** The loop's variables: the octets written so far, the last one still open. */
  datatype Quad = Quad(tmp: seq<nat>, saw: bool, octets: nat)

  const QUAD_START := Quad([0], false, 0)

  function PtonStep(q: Quad, ch: char): Option<Quad>
    requires q.tmp != []
  {
    var last := |q.tmp| - 1;
    if IsDigit(ch) then
      var octet := q.tmp[last] * 10 + DigitValue(ch);
      if octet > 255 then None
      else if !q.saw && q.octets + 1 > 4 then None
      else Some(Quad(q.tmp[last := octet], true, if q.saw then q.octets else q.octets + 1))
    else if ch == '.' && q.saw then
      if q.octets == 4 then None else Some(Quad(q.tmp + [0], false, q.octets))
    else None
  }

  function PtonScan(s: string): (r: Option<Quad>)
    ensures r.Some? ==> r.value.tmp != []
  {
    if s == "" then Some(QUAD_START)
    else
      var r := PtonScan(s[..|s| - 1]);
      if r.None? then None
      else
        var r' := PtonStep(r.value, s[|s| - 1]);
        assert r'.Some? ==> |r'.value.tmp| >= |r.value.tmp|;
        r'
  }

  function Pton4(s: string): Option<seq<nat>> {
    var r := PtonScan(s);
    if r.None? || r.value.octets < 4 then None else Some(r.value.tmp)
  }

  /** Every piece but the last is an octet, and the last may still grow into one. */
  predicate QuadSoFar(gs: seq<string>) {
    && 1 <= |gs| <= 4
    && (forall i :: 0 <= i < |gs| - 1 ==> Octet(gs[i]))
    && Digits(gs[|gs| - 1]) && Value(gs[|gs| - 1]) <= 255
  }

  /** The state the machine must be in after reading these pieces. */
  function QuadOf(gs: seq<string>): Quad
    requires QuadSoFar(gs)
  {
    var open := gs[|gs| - 1] != "";
    Quad(Values(gs), open, if open then |gs| else |gs| - 1)
  }

  lemma DigitsAppend(g: string, c: char)
    requires Digits(g)
    ensures Digits(g + [c]) <==> IsDigit(c)
    ensures IsDigit(c) ==> Value(g + [c]) == 10 * Value(g) + DigitValue(c)
  {
    var h := g + [c];
    assert h[..|h| - 1] == g;
    if !IsDigit(c) { assert h[|g|] == c; }
  }

  /** The pieces once `c` is appended to the text. */
  function Grow(gs: seq<string>, c: char): (gs': seq<string>)
    requires |gs| >= 1
    ensures |gs'| >= 1
  {
    if c == '.' then gs + [""] else gs[|gs| - 1 := gs[|gs| - 1] + [c]]
  }

  lemma DotFollowsSplit(gs: seq<string>)
    requires QuadSoFar(gs)
    ensures PtonStep(QuadOf(gs), '.') == if QuadSoFar(Grow(gs, '.')) then Some(QuadOf(Grow(gs, '.'))) else None
  {
    var gs' := Grow(gs, '.');
    assert gs'[|gs|] == "" && gs'[|gs| - 1] == gs[|gs| - 1];
    if gs[|gs| - 1] != "" && |gs| < 4 {
      assert forall i :: 0 <= i < |gs'| - 1 ==> gs'[i] == gs[i];
      assert QuadSoFar(gs');
      assert QuadOf(gs').tmp == QuadOf(gs).tmp + [0];
    } else if gs[|gs| - 1] == "" {
      assert !Octet(gs'[|gs| - 1]);
    }
  }

  lemma CharFollowsSplit(gs: seq<string>, c: char)
    requires QuadSoFar(gs) && c != '.'
    ensures PtonStep(QuadOf(gs), c) == if QuadSoFar(Grow(gs, c)) then Some(QuadOf(Grow(gs, c))) else None
  {
    var last, gs' := |gs| - 1, Grow(gs, c);
    DigitsAppend(gs[last], c);
    CharSoFar(gs, c);
    if QuadSoFar(gs') {
      assert gs'[last] != "";
      assert QuadOf(gs').tmp == QuadOf(gs).tmp[last := Value(gs'[last])];
    }
  }

  lemma CharSoFar(gs: seq<string>, c: char)
    requires QuadSoFar(gs) && c != '.'
    ensures QuadSoFar(Grow(gs, c)) <==> IsDigit(c) && 10 * Value(gs[|gs| - 1]) + DigitValue(c) <= 255
  {
    var last, gs' := |gs| - 1, Grow(gs, c);
    DigitsAppend(gs[last], c);
    assert gs'[last] == gs[last] + [c];
    assert forall i :: 0 <= i < last ==> gs'[i] == gs[i];
  }

  lemma {:induction false} ScanFollowsSplit(s: string)
    ensures PtonScan(s) == if QuadSoFar(Split(s)) then Some(QuadOf(Split(s))) else None
  {
    if s == "" {
      assert Values([""]) == [0];
    } else {
      var n := |s| - 1;
      var gs := Split(s[..n]);
      assert Split(s) == Grow(gs, s[n]);
      ScanFollowsSplit(s[..n]);
      if QuadSoFar(gs) {
        if s[n] == '.' { DotFollowsSplit(gs); } else { CharFollowsSplit(gs, s[n]); }
      } else if QuadSoFar(Grow(gs, s[n])) {
        GoodBefore(gs, s[n]);
      }
    }
  }

  lemma GoodBefore(gs: seq<string>, c: char)
    requires |gs| >= 1 && QuadSoFar(Grow(gs, c))
    ensures QuadSoFar(gs)
  {
    var last, gs' := |gs| - 1, Grow(gs, c);
    assert forall i :: 0 <= i < last ==> gs'[i] == gs[i];
    if c == '.' {
      assert Octet(gs'[last]);
    } else {
      var g, g' := gs[last], gs'[last];
      assert forall i :: 0 <= i < |g| ==> g[i] == g'[i];
      DigitsAppend(g, c);
      assert g' == g + [c] && g'[|g|] == c;
    }
  }

  /** `inet_pton4` accepts exactly the dotted quads, with the groups' values. */
  lemma Pton4Exact(s: string)
    ensures Pton4(s).Some? <==> IsQuad(s)
    ensures IsQuad(s) ==> Pton4(s).value == Values(Split(s))
  {
    ScanFollowsSplit(s);
    var gs := Split(s);
    if IsQuad(s) {
      assert forall i :: 0 <= i < |gs| - 1 ==> Octet(gs[i]);
    }
  }

  /** The source's loop over its four-byte scratch array, which it never leaves.
      `dst` is written only on success. */
  method InetPton4(src: string) returns (dst: Option<seq<nat>>)
    ensures dst == Pton4(src)
    ensures dst.Some? ==> |dst.value| == 4 && forall i :: 0 <= i < 4 ==> dst.value[i] <= 255
  {
    var sawDigit, octets := false, 0;
    var tmp := new nat[4];
    var tp := 0;
    tmp[tp] := 0;
    assert tmp[..1] == [0];
    for i := 0 to |src|
      invariant tp < 4 && octets <= 4 && octets == tp + (if sawDigit then 1 else 0)
      invariant PtonScan(src[..i]) == Some(Quad(tmp[..tp + 1], sawDigit, octets))
    {
      var ch := src[i];
      assert src[..i + 1][..i] == src[..i];
      ghost var before := tmp[..tp + 1];
      if PtonScan(src[..i + 1]).None? { DeadPrefix(src, i + 1); }
      if IsDigit(ch) {
        var octet: nat := tmp[tp] * 10 + DigitValue(ch);
        if octet > 255 { return None; }
        tmp[tp] := octet;
        assert tmp[..tp + 1] == before[tp := octet];
        if !sawDigit {
          octets := octets + 1;
          if octets > 4 { return None; }
          sawDigit := true;
        }
      } else if ch == '.' && sawDigit {
        if octets == 4 { return None; }
        tp := tp + 1;
        tmp[tp] := 0;
        assert tmp[..tp + 1] == before + [0];
        sawDigit := false;
      } else {
        return None;
      }
    }
    assert src[..|src|] == src;
    if octets < 4 { return None; }
    Pton4Exact(src);
    assert tmp[..tp + 1] == tmp[..];
    dst := Some(tmp[..]);
  }

  lemma {:induction false} DeadPrefix(s: string, k: nat)
    requires k <= |s| && PtonScan(s[..k]).None?
    ensures PtonScan(s).None?
    decreases |s| - k
  {
    if k == |s| {
      assert s[..k] == s;
    } else {
      assert s[..k + 1][..k] == s[..k];
      DeadPrefix(s, k + 1);
    }
  }

  // ---- inet_ntop4 ----

  /** `%u` */
  function Dec(n: nat): string {
    if n < 10 then [('0' as int + n) as char] else Dec(n / 10) + [('0' as int + n % 10) as char]
  }

  lemma {:induction false} DecReads(n: nat)
    ensures Digits(Dec(n)) && Dec(n) != "" && Value(Dec(n)) == n && '.' !in Dec(n)
  {
    var c := ('0' as int + n % 10) as char;
    if n < 10 {
      assert Dec(n) == [c] && Dec(n)[..0] == "";
    } else {
      DecReads(n / 10);
      DigitsAppend(Dec(n / 10), c);
    }
  }

  function QuadText(b: seq<Byte>): string
    requires |b| == 4
  {
    Dec(b[0]) + "." + Dec(b[1]) + "." + Dec(b[2]) + "." + Dec(b[3])
  }

  /** `inet_ntop4`: nothing when the text is longer than `size`. */
  function Ntop4(b: seq<Byte>, size: nat): (r: Option<string>)
    requires |b| == 4
  {
    if |QuadText(b)| > size then None else Some(QuadText(b))
  }

  lemma QuadTextSplits(b: seq<Byte>)
    requires |b| == 4
    ensures Split(QuadText(b)) == [Dec(b[0]), Dec(b[1]), Dec(b[2]), Dec(b[3])]
  {
    DecReads(b[0]); DecReads(b[1]); DecReads(b[2]); DecReads(b[3]);
    SplitWhole(Dec(b[0]));
    SplitLast(Dec(b[0]), Dec(b[1]));
    SplitLast(Dec(b[0]) + "." + Dec(b[1]), Dec(b[2]));
    SplitLast(Dec(b[0]) + "." + Dec(b[1]) + "." + Dec(b[2]), Dec(b[3]));
  }

  /** Parsing the printed form of any four bytes gives them back. */
  lemma QuadRoundTrip(b: seq<Byte>)
    requires |b| == 4
    ensures Pton4(QuadText(b)) == Some(b)
  {
    QuadTextSplits(b);
    DecReads(b[0]); DecReads(b[1]); DecReads(b[2]); DecReads(b[3]);
    Pton4Exact(QuadText(b));
    assert Pton4(QuadText(b)).value == b;
  }

  lemma {:induction false} DecLength(n: nat)
    ensures n < 10 ==> |Dec(n)| <= 1
    ensures n < 100 ==> |Dec(n)| <= 2
    ensures n < 1000 ==> |Dec(n)| <= 3
  {
    if n >= 10 { DecLength(n / 10); }
  }

  /** The text always fits the source's 16-byte scratch buffer with its terminator. */
  lemma QuadTextFits(b: seq<Byte>)
    requires |b| == 4
    ensures |QuadText(b)| + 1 <= 16
  {
    DecLength(b[0]); DecLength(b[1]); DecLength(b[2]); DecLength(b[3]);
  }

  /** `inet_ntop4` does not count the terminator: what it copies, terminator included,
      fits the caller's buffer exactly when the text is not as long as the buffer. A
      buffer of 16 bytes is always enough. */
  lemma Ntop4FitsIff(b: seq<Byte>, size: nat)
    requires |b| == 4
    ensures (Ntop4(b, size).Some? ==> |Ntop4(b, size).value| + 1 <= size) <==> |QuadText(b)| != size
    ensures size >= 16 ==> Ntop4(b, size) == Some(QuadText(b)) && |QuadText(b)| + 1 <= size
  {
    QuadTextFits(b);
  }

  /** One byte too many is copied here. */
  lemma Ntop4Overruns()
    ensures Ntop4([0, 0, 0, 0], 7) == Some("0.0.0.0") && |"0.0.0.0"| + 1 > 7
  {
    assert QuadText([0, 0, 0, 0]) == "0" + "." + "0" + "." + "0" + "." + "0" == "0.0.0.0";
  }

  // ---- inet_aton ----

  datatype Acc = Acc(dots: nat, acc: nat, addr: nat)

  /** Arithmetic in `unsigned long`, of 64 bits if `wide` and else of 32. */
  function Wrap(x: nat, wide: bool): nat {
    if wide then x % 0x1_0000_0000_0000_0000 else x % 0x1_0000_0000
  }

  /** One character. */
  function AtonStep(a: Acc, c: char, wide: bool): Option<Acc> {
    if IsDigit(c) then Some(a.(acc := Wrap(a.acc * 10 + DigitValue(c), wide)))
    else if c == '.' then
      if a.dots + 1 > 3 || a.acc > 255 then None
      else Some(Acc(a.dots + 1, 0, Wrap(a.addr * 256 + a.acc, wide)))
    else None
  }

  function AtonScan(s: string, wide: bool): Option<Acc> {
    if s == "" then Some(Acc(0, 0, 0))
    else
      var r := AtonScan(s[..|s| - 1], wide);
      if r.None? then None else AtonStep(r.value, s[|s| - 1], wide)
  }

  function Shift8(x: nat, k: nat, wide: bool): nat
    decreases k
  {
    if k == 0 then x else Shift8(Wrap(x * 256, wide), k - 1, wide)
  }

  /** After the loop: the terminator closes the last group, and missing groups are
      shifted in. */
  function AtonEnd(a: Acc, wide: bool): Option<nat> {
    if a.acc > 255 then None
    else Some(Shift8(Wrap(a.addr * 256 + a.acc, wide), if a.dots < 3 then 3 - a.dots else 0, wide))
  }

  /** The host-order value stored on success. */
  function Aton(s: string, wide: bool): Option<nat> {
    var r := AtonScan(s, wide);
    if r.None? then None else AtonEnd(r.value, wide)
  }

  function BigEndian(vs: seq<nat>): nat {
    if vs == [] then 0 else BigEndian(vs[..|vs| - 1]) * 256 + vs[|vs| - 1]
  }

  lemma {:induction false} BigEndianBound(vs: seq<nat>)
    requires forall i :: 0 <= i < |vs| ==> vs[i] <= 255
    ensures |vs| <= 1 ==> BigEndian(vs) < 0x100
    ensures |vs| <= 2 ==> BigEndian(vs) < 0x1_0000
    ensures |vs| <= 3 ==> BigEndian(vs) < 0x100_0000
    ensures |vs| <= 4 ==> BigEndian(vs) < 0x1_0000_0000
  {
    if vs != [] { BigEndianBound(vs[..|vs| - 1]); }
    if |vs| == 1 { assert BigEndian(vs[..0]) == 0; }
  }

  /** A group's value as `unsigned long` has it. */
  function Residues(gs: seq<string>, wide: bool): (vs: seq<nat>)
    requires forall i :: 0 <= i < |gs| ==> Digits(gs[i])
    ensures |vs| == |gs|
    ensures forall i :: 0 <= i < |gs| ==> vs[i] == Wrap(Value(gs[i]), wide)
  {
    seq(|gs|, i requires 0 <= i < |gs| => Wrap(Value(gs[i]), wide))
  }

  /** Pieces the loop gets through: at most four groups of digits, empty ones allowed,
      each but the last worth at most 255. */
  predicate AtonSoFar(gs: seq<string>, wide: bool)
  {
    && 1 <= |gs| <= 4 && (forall i :: 0 <= i < |gs| ==> Digits(gs[i]))
    && forall i :: 0 <= i < |gs| - 1 ==> Wrap(Value(gs[i]), wide) <= 255
  }

  /** The reference: one to four groups of digits, each possibly empty and each worth
      at most 255 modulo the size of `unsigned long`. */
  predicate IsAton(s: string, wide: bool)
  {
    var gs := Split(s);
    AtonSoFar(gs, wide) && Wrap(Value(gs[|gs| - 1]), wide) <= 255
  }

  /** What the accumulators hold after these pieces. */
  function AccOf(gs: seq<string>, wide: bool): Acc
    requires AtonSoFar(gs, wide)
  {
    var last := |gs| - 1;
    Acc(last, Wrap(Value(gs[last]), wide), BigEndian(Residues(gs[..last], wide)))
  }

  lemma LastJoins(gs: seq<string>, wide: bool)
    requires AtonSoFar(gs, wide) && Wrap(Value(gs[|gs| - 1]), wide) <= 255
    ensures var a := AccOf(gs, wide);
            Wrap(a.addr * 256 + a.acc, wide) == BigEndian(Residues(gs, wide))
  {
    var vs, last := Residues(gs, wide), |gs| - 1;
    assert vs[..last] == Residues(gs[..last], wide);
    BigEndianBound(vs);
  }

  lemma DotSoFar(gs: seq<string>, wide: bool)
    requires AtonSoFar(gs, wide)
    ensures AtonSoFar(Grow(gs, '.'), wide) <==> |gs| < 4 && Wrap(Value(gs[|gs| - 1]), wide) <= 255
  {
    var gs' := Grow(gs, '.');
    assert gs'[|gs|] == "";
    assert forall i :: 0 <= i < |gs| ==> gs'[i] == gs[i];
  }

  lemma AtonDot(gs: seq<string>, wide: bool)
    requires AtonSoFar(gs, wide)
    ensures AtonStep(AccOf(gs, wide), '.', wide) ==
            if AtonSoFar(Grow(gs, '.'), wide) then Some(AccOf(Grow(gs, '.'), wide)) else None
  {
    DotSoFar(gs, wide);
    if AtonSoFar(Grow(gs, '.'), wide) {
      var gs' := Grow(gs, '.');
      assert gs'[..|gs|] == gs && gs'[|gs|] == "";
      LastJoins(gs, wide);
    }
  }

  lemma WrapStep(v: nat, d: nat, wide: bool)
    ensures Wrap(Wrap(v, wide) * 10 + d, wide) == Wrap(10 * v + d, wide)
  {
    if wide {
      var q := v / 0x1_0000_0000_0000_0000;
      assert v == 0x1_0000_0000_0000_0000 * q + Wrap(v, wide);
      WrapMultiple(Wrap(v, wide) * 10 + d, 10 * q, wide);
    } else {
      var q := v / 0x1_0000_0000;
      assert v == 0x1_0000_0000 * q + Wrap(v, wide);
      WrapMultiple(Wrap(v, wide) * 10 + d, 10 * q, wide);
    }
  }

  lemma {:induction false} WrapMultiple(x: nat, k: nat, wide: bool)
    ensures Wrap(x + (if wide then 0x1_0000_0000_0000_0000 else 0x1_0000_0000) * k, wide) == Wrap(x, wide)
    decreases k
  {
    if k > 0 {
      WrapMultiple(x, k - 1, wide);
      WrapOnce(x + (if wide then 0x1_0000_0000_0000_0000 else 0x1_0000_0000) * (k - 1), wide);
    }
  }

  lemma WrapOnce(x: nat, wide: bool)
    ensures Wrap(x + if wide then 0x1_0000_0000_0000_0000 else 0x1_0000_0000, wide) == Wrap(x, wide)
  {
  }

  lemma AtonChar(gs: seq<string>, c: char, wide: bool)
    requires c != '.' && AtonSoFar(gs, wide)
    ensures AtonStep(AccOf(gs, wide), c, wide) ==
            if AtonSoFar(Grow(gs, c), wide) then Some(AccOf(Grow(gs, c), wide)) else None
  {
    var last, gs' := |gs| - 1, Grow(gs, c);
    assert gs'[last] == gs[last] + [c] && gs'[..last] == gs[..last];
    if IsDigit(c) {
      DigitsAppend(gs[last], c);
      WrapStep(Value(gs[last]), DigitValue(c), wide);
    } else {
      assert gs'[last][|gs[last]|] == c;
    }
  }

  lemma AtonDead(gs: seq<string>, c: char, wide: bool)
    requires |gs| >= 1 && AtonSoFar(Grow(gs, c), wide)
    ensures AtonSoFar(gs, wide)
  {
    var last, gs' := |gs| - 1, Grow(gs, c);
    forall i | 0 <= i < |gs| ensures Digits(gs[i]) {
      if i < last || c == '.' {
        assert gs'[i] == gs[i];
      } else {
        assert forall j :: 0 <= j < |gs[i]| ==> gs'[i][j] == gs[i][j];
      }
    }
    forall i | 0 <= i < last ensures Wrap(Value(gs[i]), wide) <= 255 { assert gs'[i] == gs[i]; }
  }

  /** The loop gets through exactly these pieces, and the accumulators hold them. */
  lemma {:induction false} AtonFollowsSplit(s: string, wide: bool)
    ensures AtonScan(s, wide) == if AtonSoFar(Split(s), wide) then Some(AccOf(Split(s), wide)) else None
  {
    if s == "" {
      assert Split(s)[..0] == [] && Residues([], wide) == [];
    } else {
      var n := |s| - 1;
      var gs := Split(s[..n]);
      assert Split(s) == Grow(gs, s[n]);
      AtonFollowsSplit(s[..n], wide);
      if AtonSoFar(gs, wide) {
        if s[n] == '.' { AtonDot(gs, wide); } else { AtonChar(gs, s[n], wide); }
      } else if AtonSoFar(Split(s), wide) {
        AtonDead(gs, s[n], wide);
      }
    }
  }

  /** Zeros for the groups that are missing on the right. */
  function Pad(vs: seq<nat>): seq<nat>
    decreases 4 - |vs|
  {
    if |vs| >= 4 then vs else Pad(vs + [0])
  }

  lemma {:induction false} PadShifts(vs: seq<nat>, k: nat, wide: bool)
    requires |vs| + k == 4 && forall i :: 0 <= i < |vs| ==> vs[i] <= 255
    ensures Shift8(BigEndian(vs), k, wide) == BigEndian(Pad(vs))
    decreases k
  {
    if k > 0 {
      ShiftOnce(vs, wide);
      PadShifts(vs + [0], k - 1, wide);
    }
  }

  lemma ShiftOnce(vs: seq<nat>, wide: bool)
    requires |vs| <= 3 && forall i :: 0 <= i < |vs| ==> vs[i] <= 255
    ensures Wrap(BigEndian(vs) * 256, wide) == BigEndian(vs + [0])
  {
    BigEndianMore(vs, 0);
    BigEndianBound(vs);
    SmallWrap(BigEndian(vs) * 256, wide);
  }

  lemma BigEndianMore(vs: seq<nat>, v: nat)
    ensures BigEndian(vs + [v]) == BigEndian(vs) * 256 + v
  {
    var more := vs + [v];
    assert more[..|more| - 1] == vs;
  }

  lemma SmallWrap(x: nat, wide: bool)
    requires x < 0x1_0000_0000
    ensures Wrap(x, wide) == x
  {
  }

  lemma AtonEnds(gs: seq<string>, wide: bool)
    requires AtonSoFar(gs, wide)
    ensures AtonEnd(AccOf(gs, wide), wide) ==
            if Wrap(Value(gs[|gs| - 1]), wide) <= 255 then Some(BigEndian(Pad(Residues(gs, wide)))) else None
  {
    if Wrap(Value(gs[|gs| - 1]), wide) <= 255 {
      LastJoins(gs, wide);
      LastPadded(Residues(gs, wide), 4 - |gs|, wide);
    }
  }

  lemma LastPadded(vs: seq<nat>, k: nat, wide: bool)
    requires |vs| + k == 4 && |vs| >= 1
    requires forall i :: 0 <= i < |vs| - 1 ==> vs[i] <= 255
    requires vs[|vs| - 1] <= 255
    ensures Shift8(BigEndian(vs), k, wide) == BigEndian(Pad(vs))
  {
    PadShifts(vs, k, wide);
  }

  /** `inet_aton` accepts exactly these texts, as the groups' values from the left. */
  lemma AtonExact(s: string, wide: bool)
    ensures Aton(s, wide).Some? <==> IsAton(s, wide)
    ensures IsAton(s, wide) ==> Aton(s, wide).value == BigEndian(Pad(Residues(Split(s), wide)))
  {
    AtonFollowsSplit(s, wide);
    if AtonSoFar(Split(s), wide) { AtonEnds(Split(s), wide); }
  }

  /** Whatever `inet_pton4` accepts, `inet_aton` accepts too, as the same address,
      whether `unsigned long` has 32 or 64 bits. */
  lemma AtonAgrees(s: string, wide: bool)
    requires Pton4(s).Some?
    ensures Aton(s, wide) == Some(BigEndian(Pton4(s).value))
  {
    Pton4Exact(s);
    AtonExact(s, wide);
    SmallResidues(Split(s), wide);
    assert Pad(Values(Split(s))) == Values(Split(s));
  }

  lemma SmallResidues(gs: seq<string>, wide: bool)
    requires 1 <= |gs| <= 4 && forall i :: 0 <= i < |gs| ==> Octet(gs[i])
    ensures AtonSoFar(gs, wide) && Residues(gs, wide) == Values(gs)
  {
    forall i | 0 <= i < |gs| ensures Wrap(Value(gs[i]), wide) == Value(gs[i]) <= 255 { assert Octet(gs[i]); }
  }

  /** It accepts more than `inet_pton4` exactly by missing groups, empty groups and
      groups over 255 that wrap around to at most 255. */
  lemma AtonBeyondIff(s: string, wide: bool)
    ensures Aton(s, wide).Some? && Pton4(s).None? <==>
            && IsAton(s, wide)
            && var gs := Split(s); |gs| < 4 || exists i :: 0 <= i < |gs| && (gs[i] == "" || Value(gs[i]) > 255)
  {
    Pton4Exact(s);
    AtonExact(s, wide);
    var gs := Split(s);
    if IsAton(s, wide) && |gs| == 4 && forall i :: 0 <= i < 4 ==> gs[i] != "" && Value(gs[i]) <= 255 {
      assert forall i :: 0 <= i < 4 ==> Octet(gs[i]);
    }
  }

  /** The source's loop, terminator included. */
  method InetAton(cp: string, wide: bool) returns (r: Option<nat>)
    ensures r == Aton(cp, wide)
  {
    var dots: nat, acc: nat, addr: nat := 0, 0, 0;
    for i := 0 to |cp|
      invariant AtonScan(cp[..i], wide) == Some(Acc(dots, acc, addr))
    {
      assert cp[..i + 1][..i] == cp[..i];
      if AtonScan(cp[..i + 1], wide).None? { AtonDeadPrefix(cp, i + 1, wide); }
      if IsDigit(cp[i]) {
        acc := Wrap(acc * 10 + DigitValue(cp[i]), wide);
      } else if cp[i] == '.' {
        dots := dots + 1;
        if dots > 3 { return None; }
        if acc > 255 { return None; }
        addr := Wrap(addr * 256 + acc, wide);
        acc := 0;
      } else {
        return None;
      }
    }
    assert cp[..|cp|] == cp;
    if acc > 255 { return None; }
    addr := Wrap(addr * 256 + acc, wide);
    if dots < 3 {
      ghost var whole := addr;
      for k := 0 to 3 - dots
        invariant Shift8(addr, 3 - dots - k, wide) == Shift8(whole, 3 - dots, wide)
      {
        addr := Wrap(addr * 256, wide);
      }
    }
    r := Some(addr);
  }

  lemma {:induction false} AtonDeadPrefix(s: string, k: nat, wide: bool)
    requires k <= |s| && AtonScan(s[..k], wide).None?
    ensures AtonScan(s, wide).None?
    decreases |s| - k
  {
    if k == |s| {
      assert s[..k] == s;
    } else {
      assert s[..k + 1][..k] == s[..k];
      AtonDeadPrefix(s, k + 1, wide);
    }
  }
}
