/** Printing an IPv6 address (unpv13e/libfree/inet_ntop.c, inet_ntop6).

Sixteen bytes become eight words; the leftmost longest run of at least two zero
words becomes `::`; the last four bytes print as a dotted quad after ::, ::ffff.
*/
module Inet6Print {
  import opened Basics
  import opened Inet4

  // ---- Bytes and words ----

  function Word(hi: int, lo: int): int {
    hi * 256 + lo
  }

  function Words(b: seq<Byte>): (ws: seq<nat>)
    requires |b| == 16
    ensures |ws| == 8 && forall i :: 0 <= i < 8 ==> ws[i] <= 0xffff
  {
    seq(8, i requires 0 <= i < 8 => Word(b[2 * i], b[2 * i + 1]))
  }

  function Bytes(ws: seq<nat>): (b: seq<nat>)
    ensures |b| == 2 * |ws|
  {
    if ws == [] then [] else Bytes(ws[..|ws| - 1]) + [ws[|ws| - 1] / 256, ws[|ws| - 1] % 256]
  }

  lemma {:induction false} BytesAt(ws: seq<nat>, i: nat)
    requires i < |ws|
    ensures Bytes(ws)[2 * i] == ws[i] / 256 && Bytes(ws)[2 * i + 1] == ws[i] % 256
  {
    var n := |ws| - 1;
    if i < n { BytesAt(ws[..n], i); }
  }

  lemma WordsBack(b: seq<Byte>)
    requires |b| == 16
    ensures Bytes(Words(b)) == b
  {
    forall k | 0 <= k < 16 ensures Bytes(Words(b))[k] == b[k] { WordBack(b, k); }
  }

  lemma WordBack(b: seq<Byte>, k: nat)
    requires |b| == 16 && k < 16
    ensures Bytes(Words(b))[k] == b[k]
  {
    var i := k / 2;
    BytesAt(Words(b), i);
    assert Words(b)[i] == Word(b[2 * i], b[2 * i + 1]);
    SplitWord(b[2 * i], b[2 * i + 1]);
  }

  lemma SplitWord(hi: int, lo: int)
    requires 0 <= lo < 256
    ensures Word(hi, lo) / 256 == hi && Word(hi, lo) % 256 == lo
  {
  }

  lemma {:induction false} BytesConcat(u: seq<nat>, v: seq<nat>)
    ensures Bytes(u + v) == Bytes(u) + Bytes(v)
  {
    var n := |v| - 1;
    if v == [] {
      assert u + v == u;
    } else {
      assert (u + v)[..|u + v| - 1] == u + v[..n];
      BytesConcat(u, v[..n]);
    }
  }

  // ---- The run to compress ----

  ghost predicate ZeroRun(ws: seq<nat>, base: int, len: int) {
    0 <= base && len >= 1 && base + len <= |ws| && forall k :: base <= k < base + len ==> ws[k] == 0
  }

  /** Longest, and leftmost among the longest, of the zero runs ending by `upto`. */
  ghost predicate Leftmost(ws: seq<nat>, upto: int, base: int, len: int) {
    && ZeroRun(ws, base, len) && base + len <= upto
    && forall b, l :: ZeroRun(ws, b, l) && b + l <= upto ==> l < len || (l == len && base <= b)
  }

  ghost predicate NoZero(ws: seq<nat>, upto: int) {
    forall k :: 0 <= k < upto && k < |ws| ==> ws[k] != 0
  }

  datatype Run = Run(base: int, len: int)

  /** `best` and `cur`; base -1 means none. */
  datatype Scan = Scan(best: Run, cur: Run)

  function Better(best: Run, cur: Run): Run {
    if cur.base != -1 && (best.base == -1 || cur.len > best.len) then cur else best
  }

  function ScanStep(s: Scan, word: nat, i: nat): Scan {
    if word == 0 then
      if s.cur.base == -1 then s.(cur := Run(i, 1)) else s.(cur := Run(s.cur.base, s.cur.len + 1))
    else Scan(Better(s.best, s.cur), Run(-1, 0))
  }

  function ScanWords(ws: seq<nat>, i: nat): Scan
    requires i <= |ws|
  {
    if i == 0 then Scan(Run(-1, 0), Run(-1, 0)) else ScanStep(ScanWords(ws, i - 1), ws[i - 1], i - 1)
  }

  function BestRun(ws: seq<nat>): Run {
    var s := ScanWords(ws, |ws|);
    var best := Better(s.best, s.cur);
    if best.base != -1 && best.len < 2 then Run(-1, 0) else best
  }

  /** Where the run being counted starts; everything before it is settled. */
  function Settled(s: Scan, i: int): int {
    if s.cur.base == -1 then i else s.cur.base
  }

  ghost predicate BestOf(ws: seq<nat>, upto: int, best: Run) {
    if best.base == -1 then NoZero(ws, upto) else Leftmost(ws, upto, best.base, best.len)
  }

  ghost predicate ScanOk(ws: seq<nat>, i: nat, s: Scan)
    requires i <= |ws|
  {
    && (s.cur.base != -1 ==> ZeroRun(ws, s.cur.base, s.cur.len) && s.cur.base + s.cur.len == i)
    && 0 <= Settled(s, i) <= i
    && (Settled(s, i) > 0 ==> ws[Settled(s, i) - 1] != 0)
    && BestOf(ws, Settled(s, i), s.best)
  }

  lemma NotInRun(ws: seq<nat>, base: int, len: int, k: int)
    requires ZeroRun(ws, base, len) && 0 <= k < |ws| && ws[k] != 0
    ensures k < base || base + len <= k
  {
  }

  /** A run ending where a maximal run ends lies inside it; one crossing its start cannot be zero. */
  lemma CloseRun(ws: seq<nat>, best: Run, cur: Run)
    requires cur.base != -1 && ZeroRun(ws, cur.base, cur.len)
    requires cur.base > 0 ==> ws[cur.base - 1] != 0
    requires BestOf(ws, cur.base, best)
    ensures BestOf(ws, cur.base + cur.len, Better(best, cur))
  {
    var end, r := cur.base + cur.len, Better(best, cur);
    forall b, l | ZeroRun(ws, b, l) && b + l <= end ensures l < r.len || (l == r.len && r.base <= b) {
      if cur.base > 0 { NotInRun(ws, b, l, cur.base - 1); }
      assert ws[b] == 0;
    }
  }

  lemma ExtendSettled(ws: seq<nat>, best: Run, upto: int)
    requires 0 <= upto < |ws| && ws[upto] != 0 && BestOf(ws, upto, best)
    ensures BestOf(ws, upto + 1, best)
  {
    if best.base != -1 {
      forall b, l | ZeroRun(ws, b, l) && b + l <= upto + 1 ensures b + l <= upto {
        NotInRun(ws, b, l, upto);
      }
    }
  }

  lemma {:induction false} ScanKeepsBest(ws: seq<nat>, i: nat)
    requires i <= |ws|
    ensures ScanOk(ws, i, ScanWords(ws, i))
  {
    if i > 0 {
      ScanKeepsBest(ws, i - 1);
      var s := ScanWords(ws, i - 1);
      if ws[i - 1] != 0 {
        if s.cur.base != -1 { CloseRun(ws, s.best, s.cur); }
        ExtendSettled(ws, Better(s.best, s.cur), i - 1);
      }
    }
  }

  /** The compressed run is the leftmost of the longest zero runs, and there is one
      exactly when some two adjacent words are zero. */
  lemma BestRunIsLeftmostLongest(ws: seq<nat>)
    ensures BestRun(ws).base != -1 ==> BestRun(ws).len >= 2 && Leftmost(ws, |ws|, BestRun(ws).base, BestRun(ws).len)
    ensures BestRun(ws).base == -1 <==> !exists b :: ZeroRun(ws, b, 2)
  {
    ScanKeepsBest(ws, |ws|);
    var s := ScanWords(ws, |ws|);
    if s.cur.base != -1 { CloseRun(ws, s.best, s.cur); }
    var best := Better(s.best, s.cur);
    assert BestOf(ws, |ws|, best);
    forall b | ZeroRun(ws, b, 2) ensures best.base != -1 && best.len >= 2 {
      assert ws[b] == 0;
    }
    if BestRun(ws).base != -1 { assert ZeroRun(ws, best.base, 2); }
  }

  // ---- The text ----

  function HexDigit(d: int): char
    requires 0 <= d < 16
  {
    if d < 10 then ('0' as int + d) as char else ('a' as int + d - 10) as char
  }

  /** `%x` */
  function Hex(w: nat): string {
    if w < 16 then [HexDigit(w)] else Hex(w / 16) + [HexDigit(w % 16)]
  }

  /** Whether the last two words print as a dotted quad. */
  predicate Embeds(ws: seq<nat>, run: Run)
    requires |ws| == 8
  {
    run.base == 0 && (run.len == 6 || (run.len == 5 && ws[5] == 0xffff))
  }

  predicate InRun(run: Run, i: int) {
    run.base != -1 && run.base <= i < run.base + run.len
  }

  /** What the formatting loop appends for word `i`. An embedded quad takes two words. */
  function Piece(b: seq<Byte>, ws: seq<nat>, run: Run, i: int): string
    requires |b| == 16 && |ws| == 8 && 0 <= i < 8
  {
    if InRun(run, i) then (if i == run.base then ":" else "")
    else if Embeds(ws, run) && i == 7 then ""
    else (if i != 0 then ":" else "") + (if Embeds(ws, run) && i == 6 then QuadText(b[12..]) else Hex(ws[i]))
  }

  function Pieces(b: seq<Byte>, ws: seq<nat>, run: Run): (ps: seq<string>)
    requires |b| == 16 && |ws| == 8
    ensures |ps| == 8 && forall i :: 0 <= i < 8 ==> ps[i] == Piece(b, ws, run, i)
  {
    seq(8, i requires 0 <= i < 8 => Piece(b, ws, run, i))
  }

  function Flat(ps: seq<string>): string {
    if ps == [] then "" else Flat(ps[..|ps| - 1]) + ps[|ps| - 1]
  }

  lemma {:induction false} FlatConcat(u: seq<string>, v: seq<string>)
    ensures Flat(u + v) == Flat(u) + Flat(v)
  {
    if v == [] {
      assert u + v == u;
    } else {
      var n := |v| - 1;
      assert (u + v)[..|u + v| - 1] == u + v[..n] && (u + v)[|u + v| - 1] == v[n];
      FlatConcat(u, v[..n]);
      assert Flat(u + v) == Flat(u) + Flat(v[..n]) + v[n];
    }
  }

  lemma FlatNext(ps: seq<string>, i: nat)
    requires i < |ps|
    ensures Flat(ps[..i + 1]) == Flat(ps[..i]) + ps[i]
  {
    assert ps[..i + 1][..i] == ps[..i];
  }

  function Trailer(run: Run): string {
    if run.base != -1 && run.base + run.len == 8 then ":" else ""
  }

  function Text(b: seq<Byte>): string
    requires |b| == 16
  {
    var ws := Words(b);
    var run := BestRun(ws);
    Flat(Pieces(b, ws, run)) + Trailer(run)
  }

  lemma {:induction false} HexLength(w: nat)
    ensures w < 0x10 ==> |Hex(w)| <= 1
    ensures w < 0x100 ==> |Hex(w)| <= 2
    ensures w < 0x1000 ==> |Hex(w)| <= 3
    ensures w < 0x1_0000 ==> |Hex(w)| <= 4
  {
    if w >= 16 { HexLength(w / 16); }
  }

  lemma {:induction false} FlatLength(ps: seq<string>, most: nat)
    requires forall i :: 0 <= i < |ps| ==> |ps[i]| <= most
    ensures |Flat(ps)| <= most * |ps|
  {
    if ps != [] {
      FlatLength(ps[..|ps| - 1], most);
      assert most * |ps| == most * (|ps| - 1) + most;
    }
  }

  lemma PieceLength(b: seq<Byte>, ws: seq<nat>, run: Run, i: int)
    requires |b| == 16 && |ws| == 8 && 0 <= i < 8 && ws[i] <= 0xffff
    ensures |Piece(b, ws, run, i)| <= if Embeds(ws, run) && i == 6 then 16 else 5
    ensures Embeds(ws, run) && i < 5 ==> |Piece(b, ws, run, i)| <= 1
  {
    HexLength(ws[i]);
    QuadTextFits(b[12..]);
  }

  lemma PiecesLength(b: seq<Byte>, ws: seq<nat>, run: Run)
    requires |b| == 16 && |ws| == 8 && forall i :: 0 <= i < 8 ==> ws[i] <= 0xffff
    ensures |Flat(Pieces(b, ws, run))| <= 44
  {
    var ps := Pieces(b, ws, run);
    forall i | 0 <= i < 8 ensures |ps[i]| <= 16 && ((i == 6 && Embeds(ws, run)) || |ps[i]| <= 5) {
      PieceLength(b, ws, run, i);
    }
    if Embeds(ws, run) {
      forall i | 0 <= i < 5 ensures |ps[i]| <= 1 { PieceLength(b, ws, run, i); }
      FlatLength(ps[..5], 1);
      FlatLength(ps[5..6], 5);
      FlatLength(ps[6..7], 16);
      FlatLength(ps[7..], 5);
      assert ps == ps[..5] + ps[5..6] + ps[6..7] + ps[7..];
      FlatConcat(ps[..5], ps[5..6]);
      FlatConcat(ps[..5] + ps[5..6], ps[6..7]);
      FlatConcat(ps[..5] + ps[5..6] + ps[6..7], ps[7..]);
    } else {
      FlatLength(ps, 5);
    }
  }

  /** The source's 46-byte scratch buffer never overflows. */
  lemma TextFits(b: seq<Byte>)
    requires |b| == 16
    ensures |Text(b)| + 1 <= 46
  {
    PiecesLength(b, Words(b), BestRun(Words(b)));
  }

  lemma {:induction false} FlatPrefixFits(ps: seq<string>, i: nat)
    requires i <= |ps|
    ensures |Flat(ps[..i])| <= |Flat(ps)|
  {
    assert ps == ps[..i] + ps[i..];
    FlatConcat(ps[..i], ps[i..]);
  }

  // ---- The source's three loops ----

  method FillWords(src: seq<Byte>) returns (words: array<nat>)
    requires |src| == 16
    ensures fresh(words) && words[..] == Words(src)
  {
    words := new nat[8](_ => 0);
    for i := 0 to 16
      invariant forall k :: 0 <= k < 8 ==>
                  words[k] == Word(if 2 * k < i then src[2 * k] else 0, if 2 * k + 1 < i then src[2 * k + 1] else 0)
    {
      words[i / 2] := words[i / 2] + (if i % 2 == 0 then Word(src[i], 0) else Word(0, src[i]));
    }
  }

  method FindRun(words: array<nat>) returns (best: Run)
    ensures best == BestRun(words[..])
  {
    best := Run(-1, 0);
    var cur := Run(-1, 0);
    for i := 0 to words.Length
      invariant ScanWords(words[..], i) == Scan(best, cur)
    {
      if words[i] == 0 {
        if cur.base == -1 { cur := Run(i, 1); } else { cur := Run(cur.base, cur.len + 1); }
      } else {
        if cur.base != -1 {
          if best.base == -1 || cur.len > best.len { best := cur; }
        }
        cur := Run(-1, 0);
      }
    }
    if cur.base != -1 {
      if best.base == -1 || cur.len > best.len { best := cur; }
    }
    if best.base != -1 && best.len < 2 { best := Run(-1, 0); }
  }

  /** One turn of the formatting loop; `last` is its `break`. */
  method FormatWord(src: seq<Byte>, words: array<nat>, best: Run, i: nat, room: nat) returns (piece: string, last: bool)
    requires |src| == 16 && words.Length == 8 && i < 8 && (i == 7 ==> !Embeds(words[..], best))
    requires |Piece(src, words[..], best, i)| <= room
    ensures piece == Piece(src, words[..], best, i)
    ensures last <==> i == 6 && Embeds(words[..], best)
  {
    piece, last := "", false;
    if best.base != -1 && i >= best.base && i < best.base + best.len {
      if i == best.base { piece := ":"; }
      return;
    }
    if i != 0 { piece := ":"; }
    if i == 6 && best.base == 0 && (best.len == 6 || (best.len == 5 && words[5] == 0xffff)) {
      var quad := Ntop4(src[12..], room - |piece|);
      piece := piece + quad.value;
      last := true;
    } else {
      piece := piece + Hex(words[i]);
    }
  }

  method FormatLoop(src: seq<Byte>, words: array<nat>, best: Run) returns (tp: string)
    requires |src| == 16 && words.Length == 8
    requires |Flat(Pieces(src, words[..], best))| <= 46
    ensures tp == Flat(Pieces(src, words[..], best))
  {
    ghost var ps := Pieces(src, words[..], best);
    tp := "";
    var i := 0;
    while i < 8
      invariant 0 <= i <= 8 && tp == Flat(ps[..i])
      invariant i >= 7 ==> !Embeds(words[..], best)
    {
      FlatNext(ps, i);
      FlatPrefixFits(ps, i + 1);
      var piece, last := FormatWord(src, words, best, i, 46 - |tp|);
      tp := tp + piece;
      i := i + 1;
      assert tp == Flat(ps[..i]);
      if last {
        // The quad stands for the last two words.
        FlatNext(ps, i);
        assert tp + ps[i] == tp && ps[..i + 1] == ps;
        break;
      }
    }
    assert ps[..8] == ps;
  }

  /** The text comes back exactly when it fits `size` with its terminator; the
      embedded quad never fails for want of room. */
  method InetNtop6(src: seq<Byte>, size: nat) returns (dst: Option<string>)
    requires |src| == 16
    ensures dst == if |Text(src)| + 1 > size then None else Some(Text(src))
  {
    var words := FillWords(src);
    var best := FindRun(words);
    TextFits(src);
    var tp := FormatLoop(src, words, best);
    if best.base != -1 && best.base + best.len == 8 { tp := tp + ":"; }
    assert tp == Text(src);
    if |tp| + 1 > size { return None; }
    dst := Some(tp);
  }
}
