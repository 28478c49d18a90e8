/** Parsing an IPv6 address (unpv13e/libfree/inet_pton.c, inet_pton6).

`Scan` gives the one-pass loop on its remaining input; `InetPton6` runs it over
the sixteen-byte scratch array and ends with the hand-written overlapping shift.
*/
module Inet6Parse {
  import opened Basics
  import opened Inet4
  import opened Inet6Print

  predicate IsHex(c: char) {
    '0' <= c <= '9' || 'a' <= c <= 'f' || 'A' <= c <= 'F'
  }

  function HexValue(c: char): (d: int)
    requires IsHex(c)
    ensures 0 <= d < 16
  {
    if '0' <= c <= '9' then c as int - '0' as int
    else if 'a' <= c <= 'f' then c as int - 'a' as int + 10
    else c as int - 'A' as int + 10
  }

  /** The loop's variables: bytes written (`tp` is their number), where `::` stood
      (-1 if nowhere), the group being read, and the text from that group on. */
  datatype Parse = Parse(out: seq<nat>, colonp: int, saw: bool, val: nat, tok: string)

  function PutWord(p: Parse): Parse {
    p.(out := p.out + [p.val / 256, p.val % 256], saw := false, val := 0)
  }

  datatype Outcome = Reject | Continue(next: Parse) | Done(last: Parse)

  /** One character, with the text behind it. */
  function CharStep(p: Parse, ch: char, tail: string): Outcome {
    if IsHex(ch) then
      var val := p.val * 16 + HexValue(ch);
      if val > 0xffff then Reject else Continue(p.(saw := true, val := val))
    else if ch == ':' then
      if !p.saw then
        if p.colonp != -1 then Reject else Continue(p.(colonp := |p.out|, tok := tail))
      else if |p.out| + 2 > 16 then Reject
      else Continue(PutWord(p).(tok := tail))
    else if ch == '.' && |p.out| + 4 <= 16 && Pton4(p.tok).Some? then
      Done(p.(out := p.out + Pton4(p.tok).value, saw := false))
    else Reject
  }

  /** The loop from here to the end of the text. */
  function ScanText(rest: string, p: Parse): Option<Parse>
    decreases |rest|
  {
    if rest == "" then Some(p)
    else
      match CharStep(p, rest[0], rest[1..])
      case Reject => None
      case Done(q) => Some(q)
      case Continue(q) => ScanText(rest[1..], q)
  }

  function Zeros(n: nat): (z: seq<nat>)
    ensures |z| == n && forall i :: 0 <= i < n ==> z[i] == 0
  {
    seq(n, _ => 0)
  }

  /** What the shift leaves: the bytes after the gap move to the end. When there is
      no gap it moves each byte onto itself and then clears it. */
  function Spread(out: seq<nat>, colonp: nat): (r: seq<nat>)
    requires colonp <= |out| <= 16
    ensures |r| == 16
  {
    if |out| < 16 then out[..colonp] + Zeros(16 - |out|) + out[colonp..]
    else out[..colonp] + Zeros(16 - colonp)
  }

  /** After the loop: the pending group, then the shift. */
  function Finish(p: Parse): Option<seq<nat>> {
    if p.saw && |p.out| + 2 > 16 then None
    else
      var q := if p.saw then PutWord(p) else p;
      if 0 <= q.colonp <= |q.out| <= 16 then Some(Spread(q.out, q.colonp))
      else if |q.out| == 16 then Some(q.out)
      else None
  }

  function ParseAll(src: string): Option<seq<nat>> {
    var p := ScanText(src, Parse([], -1, false, 0, src));
    if p.None? then None else Finish(p.value)
  }

  /** `inet_pton6`: a leading colon must be doubled, and the first of the two is skipped. */
  function Pton6(src: string): Option<seq<nat>> {
    if src != "" && src[0] == ':' then
      if |src| > 1 && src[1] == ':' then ParseAll(src[1..]) else None
    else ParseAll(src)
  }

  // ---- At most one :: ----

  /** How many colons directly follow a colon. */
  function Doubles(afterColon: bool, rest: string): nat
    decreases rest
  {
    if rest == "" then 0
    else (if afterColon && rest[0] == ':' then 1 else 0) + Doubles(rest[0] == ':', rest[1..])
  }

  lemma {:induction false} NoColonNoDoubles(afterColon: bool, rest: string)
    requires ':' !in rest
    ensures Doubles(afterColon, rest) == 0
  {
    if rest != "" { NoColonNoDoubles(false, rest[1..]); }
  }

  lemma {:induction false} QuadHasNoColon(s: string)
    requires PtonScan(s).Some?
    ensures ':' !in s
  {
    if s != "" {
      QuadHasNoColon(s[..|s| - 1]);
      assert s == s[..|s| - 1] + [s[|s| - 1]];
    }
  }

  lemma {:induction false} ScanTakesOneDouble(afterColon: bool, rest: string, p: Parse)
    requires afterColon ==> !p.saw
    requires |rest| <= |p.tok| && p.tok[|p.tok| - |rest|..] == rest
    requires ScanText(rest, p).Some?
    ensures Doubles(afterColon, rest) <= if p.colonp == -1 then 1 else 0
    decreases |rest|
  {
    if rest != "" {
      var ch, tail := rest[0], rest[1..];
      if IsHex(ch) {
        assert p.tok[|p.tok| - |tail|..] == tail;
        ScanTakesOneDouble(false, tail, p.(saw := true, val := p.val * 16 + HexValue(ch)));
      } else if ch == ':' {
        if !p.saw {
          ScanTakesOneDouble(true, tail, p.(colonp := |p.out|, tok := tail));
        } else {
          ScanTakesOneDouble(true, tail, PutWord(p).(tok := tail));
        }
      } else {
        QuadHasNoColon(p.tok);
        NoColonNoDoubles(afterColon, rest);
      }
    }
  }

  /** Every text the parser accepts has at most one `::`. */
  lemma AcceptsOneDouble(src: string)
    requires Pton6(src).Some?
    ensures Doubles(false, src) <= 1
  {
    if src != "" && src[0] == ':' {
      var s := src[1..];
      ScanTakesOneDouble(true, s, Parse([], -1, false, 0, s));
    } else {
      ScanTakesOneDouble(false, src, Parse([], -1, false, 0, src));
    }
  }

  // ---- Letter case ----

  function UpperChar(c: char): char {
    if 'a' <= c <= 'f' then (c as int - 'a' as int + 'A' as int) as char else c
  }

  function Upper(s: string): (u: string)
    ensures |u| == |s| && forall i :: 0 <= i < |s| ==> u[i] == UpperChar(s[i])
  {
    seq(|s|, i requires 0 <= i < |s| => UpperChar(s[i]))
  }

  lemma {:induction false} QuadIgnoresCase(s: string)
    ensures PtonScan(Upper(s)) == PtonScan(s)
  {
    if s != "" {
      var n := |s| - 1;
      assert Upper(s)[..n] == Upper(s[..n]);
      QuadIgnoresCase(s[..n]);
    }
  }

  function Raised(p: Parse): Parse {
    p.(tok := Upper(p.tok))
  }

  lemma StepIgnoresCase(p: Parse, ch: char, tail: string)
    ensures CharStep(Raised(p), UpperChar(ch), Upper(tail)) ==
            match CharStep(p, ch, tail)
            case Reject => Reject
            case Done(q) => Done(Raised(q))
            case Continue(q) => Continue(Raised(q))
  {
    QuadIgnoresCase(p.tok);
    assert IsHex(ch) ==> HexValue(UpperChar(ch)) == HexValue(ch);
  }

  lemma {:induction false} ScanIgnoresCase(rest: string, p: Parse)
    ensures ScanText(Upper(rest), Raised(p)) ==
            match ScanText(rest, p) case None => None case Some(q) => Some(Raised(q))
    decreases |rest|
  {
    if rest != "" {
      StepIgnoresCase(p, rest[0], rest[1..]);
      assert Upper(rest)[1..] == Upper(rest[1..]);
      var step := CharStep(p, rest[0], rest[1..]);
      if step.Continue? { ScanIgnoresCase(rest[1..], step.next); }
    }
  }

  lemma FinishIgnoresCase(p: Parse)
    ensures Finish(Raised(p)) == Finish(p)
  {
  }

  /** Hexadecimal letters mean the same in either case, in every text. */
  lemma CaseDoesNotMatter(src: string)
    ensures Pton6(Upper(src)) == Pton6(src)
  {
    var s := if src != "" && src[0] == ':' then src[1..] else src;
    if src != "" && src[0] == ':' { assert Upper(src)[1..] == Upper(s); }
    var p := Parse([], -1, false, 0, s);
    ScanIgnoresCase(s, p);
    if ScanText(s, p).Some? { FinishIgnoresCase(ScanText(s, p).value); }
  }

  // ---- What comes out ----

  predicate AllBytes(b: seq<nat>) {
    forall i :: 0 <= i < |b| ==> b[i] <= 255
  }

  predicate InRange(p: Parse) {
    AllBytes(p.out) && p.val <= 0xffff
  }

  lemma StepGivesBytes(p: Parse, ch: char, tail: string)
    requires InRange(p)
    ensures match CharStep(p, ch, tail) case Reject => true case Done(q) => InRange(q) case Continue(q) => InRange(q)
  {
    Pton4Exact(p.tok);
  }

  lemma {:induction false} ScanGivesBytes(rest: string, p: Parse)
    requires InRange(p)
    ensures ScanText(rest, p).Some? ==> InRange(ScanText(rest, p).value)
    decreases |rest|
  {
    if rest != "" {
      StepGivesBytes(p, rest[0], rest[1..]);
      var step := CharStep(p, rest[0], rest[1..]);
      if step.Continue? { ScanGivesBytes(rest[1..], step.next); }
    }
  }

  lemma FinishGivesBytes(p: Parse)
    requires InRange(p)
    ensures Finish(p).Some? ==> |Finish(p).value| == 16 && AllBytes(Finish(p).value)
  {
    var q := if p.saw then PutWord(p) else p;
    assert AllBytes(q.out);
  }

  /** Whatever is accepted is a sixteen-byte address. */
  lemma AcceptsAddresses(src: string)
    requires Pton6(src).Some?
    ensures |Pton6(src).value| == 16 && AllBytes(Pton6(src).value)
  {
    var s := if src != "" && src[0] == ':' then src[1..] else src;
    var p := Parse([], -1, false, 0, s);
    ScanGivesBytes(s, p);
    FinishGivesBytes(ScanText(s, p).value);
  }

  // ---- The overlapping shift ----

  /** The hand-written shift, in place. `tmp` is clear from `tp` on. */
  method Shift(tmp: array<nat>, colonp: nat, tp: nat)
    requires tmp.Length == 16 && colonp <= tp <= 16
    requires forall k :: tp <= k < 16 ==> tmp[k] == 0
    modifies tmp
    ensures tmp[..] == Spread(old(tmp[..tp]), colonp)
  {
    ghost var was := tmp[..];
    var n := tp - colonp;
    for i := 1 to n + 1
      invariant forall k :: 0 <= k < 16 ==> tmp[k] == ShiftedAt(was, colonp, tp, i - 1, k)
    {
      tmp[16 - i] := tmp[colonp + n - i];
      tmp[colonp + n - i] := 0;
    }
    assert was[..tp] == old(tmp[..tp]);
  }

  /** Byte `k` after `done` bytes have been moved. */
  function ShiftedAt(was: seq<nat>, colonp: nat, tp: nat, done: nat, k: nat): nat
    requires |was| == 16 && done <= tp - colonp <= tp <= 16 && k < 16
  {
    if k < tp - done then was[k]
    else if k < 16 - done || tp == 16 then 0
    else was[k - (16 - tp)]
  }

  predicate ZeroFrom(s: seq<nat>, start: nat) {
    forall k :: start <= k < |s| ==> s[k] == 0
  }

  /** The source says a `::` in a full address is silently ignored. The shift clears
      what follows it instead, so that holds only when those bytes are zero anyway. */
  lemma FullDoubleIgnoredIff(out: seq<nat>, colonp: nat)
    requires |out| == 16 && colonp <= 16
    ensures Spread(out, colonp) == out <==> ZeroFrom(out, colonp)
  {
    var r := Spread(out, colonp);
    assert forall k :: 0 <= k < colonp ==> r[k] == out[k];
    assert forall k :: colonp <= k < 16 ==> r[k] == 0;
  }

  // ---- The source's loop ----

  method PutBytes(tmp: array<nat>, tp: nat, bytes: seq<nat>)
    requires tmp.Length == 16 && tp + |bytes| <= 16
    requires forall k :: tp <= k < 16 ==> tmp[k] == 0
    modifies tmp
    ensures tmp[..tp + |bytes|] == old(tmp[..tp]) + bytes
    ensures forall k :: tp + |bytes| <= k < 16 ==> tmp[k] == 0
  {
    for i := 0 to |bytes|
      invariant tmp[..tp] == old(tmp[..tp])
      invariant forall k :: 0 <= k < i ==> tmp[tp + k] == bytes[k]
      invariant forall k :: tp + i <= k < 16 ==> tmp[k] == 0
    {
      tmp[tp + i] := bytes[i];
    }
  }

  /** The embedded dotted quad, if it parses and fits. */
  method PutQuad(tok: string, tmp: array<nat>, tp: nat) returns (ok: bool, tp': nat)
    requires tmp.Length == 16 && tp <= 16 && forall k :: tp <= k < 16 ==> tmp[k] == 0
    modifies tmp
    ensures ok <==> tp + 4 <= 16 && Pton4(tok).Some?
    ensures ok ==> tp' == tp + 4 && tmp[..tp'] == old(tmp[..tp]) + Pton4(tok).value
    ensures tp <= tp' <= 16 && forall k :: tp' <= k < 16 ==> tmp[k] == 0
  {
    ok, tp' := false, tp;
    if tp + 4 <= 16 {
      var quad := InetPton4(tok);
      if quad.Some? {
        PutBytes(tmp, tp, quad.value);
        ok, tp' := true, tp + 4;
      }
    }
  }

  /** One pass over the text from `start`, filling the scratch array. */
  method ScanLoop(src: string, start: nat, tmp: array<nat>)
    returns (ok: bool, tp: nat, colonp: int, saw: bool, val: nat)
    requires start <= |src| && tmp.Length == 16 && forall k :: 0 <= k < 16 ==> tmp[k] == 0
    modifies tmp
    ensures tp <= 16 && -1 <= colonp <= tp && forall k :: tp <= k < 16 ==> tmp[k] == 0
    ensures var p := ScanText(src[start..], Parse([], -1, false, 0, src[start..]));
            && ok == p.Some?
            && (ok ==> p.value.out == tmp[..tp] && p.value.colonp == colonp && p.value.saw == saw && p.value.val == val)
  {
    ghost var goal := ScanText(src[start..], Parse([], -1, false, 0, src[start..]));
    ok, tp, colonp, saw, val := true, 0, -1, false, 0;
    var s, curtok := start, start;
    assert tmp[..0] == [];
    while s < |src|
      invariant ok && start <= curtok <= s <= |src|
      invariant tp <= 16 && -1 <= colonp <= tp && forall k :: tp <= k < 16 ==> tmp[k] == 0
      invariant goal == ScanText(src[s..], Parse(tmp[..tp], colonp, saw, val, src[curtok..]))
    {
      var ch := src[s];
      assert src[s..][0] == ch && src[s..][1..] == src[s + 1..];
      s := s + 1;
      if IsHex(ch) {
        val := val * 16 + HexValue(ch);
        if val > 0xffff { ok := false; return; }
        saw := true;
      } else if ch == ':' {
        curtok := s;
        if !saw {
          if colonp != -1 { ok := false; return; }
          colonp := tp;
        } else {
          if tp + 2 > 16 { ok := false; return; }
          PutBytes(tmp, tp, [val / 256, val % 256]);
          tp := tp + 2;
          saw, val := false, 0;
        }
      } else {
        if ch == '.' { ok, tp := PutQuad(src[curtok..], tmp, tp); } else { ok := false; }
        saw := false;
        return;
      }
    }
  }

  /** `dst` is written only on success. */
  method InetPton6(src: string) returns (dst: Option<seq<nat>>)
    ensures dst == Pton6(src)
  {
    var tmp := new nat[16](_ => 0);
    var start := 0;
    if src != "" && src[0] == ':' {
      start := 1;
      if |src| == 1 || src[1] != ':' { return None; }
    }
    assert src[0..] == src;
    var ok, tp, colonp, saw, val := ScanLoop(src, start, tmp);
    if !ok { return None; }
    if saw {
      if tp + 2 > 16 { return None; }
      PutBytes(tmp, tp, [val / 256, val % 256]);
      tp := tp + 2;
    }
    if colonp != -1 {
      Shift(tmp, colonp, tp);
      tp := 16;
    }
    if tp != 16 { return None; }
    assert tmp[..16] == tmp[..];
    dst := Some(tmp[..]);
  }
}
