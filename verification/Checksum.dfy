/** The Internet checksum (unpv13e/libfree/in_cksum.c; RFC 1071).

The message is its bytes; the machine reads them as 16-bit words in its own byte
order, `big` telling which. A trailing odd byte is the first byte of a word whose
second byte is zero.
*/
module Checksum {
  import opened Basics

  const ONES: int := 0xffff
  const WRAP: int := 0x1_0000_0000

  /** The largest message whose words cannot overflow the 32-bit accumulator. */
  const MAX_BYTES: nat := 131074

  function HostWord(first: int, second: int, big: bool): int {
    if big then 256 * first + second else 256 * second + first
  }

  function Sum(b: seq<Byte>, big: bool): nat {
    if |b| == 0 then 0
    else if |b| == 1 then HostWord(b[0], 0, big)
    else HostWord(b[0], b[1], big) + Sum(b[2..], big)
  }

  /** The two folds and the complement, on the 32-bit accumulator. */
  function Fold(sum: int): int {
    var once := sum / 0x1_0000 + sum % 0x1_0000;
    var twice := once + once / 0x1_0000;
    ONES - twice % 0x1_0000
  }

  function Cksum(b: seq<Byte>, big: bool): int {
    Fold(Sum(b, big) % WRAP)
  }

  lemma {:induction false} NoOverflow(b: seq<Byte>, big: bool)
    ensures Sum(b, big) <= 0xffff * ((|b| + 1) / 2)
  {
    if |b| >= 2 { NoOverflow(b[2..], big); }
  }

  lemma SumFits(b: seq<Byte>, big: bool)
    requires |b| <= MAX_BYTES
    ensures Sum(b, big) < WRAP
  {
    NoOverflow(b, big);
  }

  /** Two folds are always enough: the result is the complement of the one's
      complement sum, the residue modulo 0xffff with 0xffff standing for zero. */
  lemma FoldMeaning(sum: int)
    requires 0 <= sum < WRAP
    ensures Fold(sum) == if sum == 0 then ONES else ONES - 1 - (sum - 1) % ONES
  {
    var hi, lo := sum / 0x1_0000, sum % 0x1_0000;
    assert sum == 0xffff * hi + (hi + lo);
    if hi + lo < 0x1_0000 {
      if sum > 0 { ResidueUnique(sum, hi + lo, hi); }
    } else {
      assert (hi + lo + 1) % 0x1_0000 == hi + lo - 0xffff;
      ResidueUnique(sum, hi + lo - 0xffff, hi + 1);
    }
  }

  lemma ResidueUnique(sum: int, r: int, k: int)
    requires 1 <= r <= ONES && sum == ONES * k + r
    ensures (sum - 1) % ONES == r - 1
  {
  }

  lemma CksumIsFold(b: seq<Byte>, big: bool, sum: int)
    requires |b| <= MAX_BYTES && sum == Sum(b, big)
    ensures 0 <= sum < WRAP && Cksum(b, big) == Fold(sum)
  {
    SumFits(b, big);
  }

  lemma FoldZeroIff(sum: int)
    requires 0 <= sum < WRAP
    ensures Fold(sum) == 0 <==> sum > 0 && sum % ONES == 0
  {
    FoldMeaning(sum);
    if sum > 0 {
      var q, r := (sum - 1) / ONES, (sum - 1) % ONES;
      assert sum == ONES * q + r + 1;
      if r == ONES - 1 {
        assert sum == ONES * (q + 1);
      } else {
        assert sum % ONES == r + 1;
      }
    }
  }

  /** A message checks out exactly when its words are a nonzero multiple of 0xffff. */
  lemma VerifiesIff(b: seq<Byte>, big: bool)
    requires |b| <= MAX_BYTES
    ensures Cksum(b, big) == 0 <==> Sum(b, big) > 0 && Sum(b, big) % ONES == 0
  {
    var sum := Sum(b, big);
    CksumIsFold(b, big, sum);
    FoldZeroIff(sum);
  }

  // ---- What is summed ----

  /** The words of two parts add up when the first has even length. */
  lemma {:induction false} SumConcat(a: seq<Byte>, b: seq<Byte>, big: bool)
    requires |a| % 2 == 0
    ensures Sum(a + b, big) == Sum(a, big) + Sum(b, big)
  {
    if a == [] {
      assert a + b == b;
    } else {
      assert (a + b)[2..] == a[2..] + b;
      SumConcat(a[2..], b, big);
    }
  }

  /** The last byte of an odd message makes a word with a zero byte behind it. */
  lemma OddSum(b: seq<Byte>, big: bool)
    requires |b| % 2 == 1
    ensures var last: int := b[|b| - 1]; Sum(b, big) == Sum(b[..|b| - 1], big) + if big then 256 * last else last
  {
    var n := |b| - 1;
    assert b == b[..n] + [b[n]];
    SumConcat(b[..n], [b[n]], big);
  }

  /** An odd message has the checksum of the message with a zero byte appended. */
  lemma OddIsPadded(b: seq<Byte>, big: bool)
    requires |b| % 2 == 1
    ensures Cksum(b + [0], big) == Cksum(b, big)
  {
    var n := |b| - 1;
    assert b + [0] == b[..n] + [b[n], 0];
    SumConcat(b[..n], [b[n], 0], big);
    assert [b[n], 0][2..] == [];
    OddSum(b, big);
  }

  lemma FoldDiffers(s: int, s': int)
    requires 0 <= s < s' < WRAP && s' - s < ONES
    ensures Fold(s) != Fold(s')
  {
    FoldMeaning(s);
    FoldMeaning(s');
  }

  lemma OddChange(b: seq<Byte>, x: Byte, big: bool)
    requires |b| % 2 == 1
    ensures var n := |b| - 1; var change: int := x - b[n];
            Sum(b[n := x], big) - Sum(b, big) == if big then 256 * change else change
  {
    var n := |b| - 1;
    assert b[n := x][..n] == b[..n];
    OddSum(b, big);
    OddSum(b[n := x], big);
  }

  /** A changed last byte of an odd message always changes the checksum. */
  lemma OddByteNoticed(b: seq<Byte>, x: Byte, big: bool)
    requires |b| % 2 == 1 && |b| <= MAX_BYTES && x != b[|b| - 1]
    ensures Cksum(b[|b| - 1 := x], big) != Cksum(b, big)
  {
    var b' := b[|b| - 1 := x];
    var s, s' := Sum(b, big), Sum(b', big);
    OddChange(b, x, big);
    CksumIsFold(b, big, s);
    CksumIsFold(b', big, s');
    if s < s' { FoldDiffers(s, s'); } else { FoldDiffers(s', s); }
  }

  /** The example of section 3 of RFC 1071. */
  lemma RfcExample()
    ensures Cksum([0x00, 0x01, 0xf2, 0x03, 0xf4, 0xf5, 0xf6, 0xf7], true) == 0xffff - 0xddf2
  {
    var a, b := [0x00, 0x01, 0xf2, 0x03], [0xf4, 0xf5, 0xf6, 0xf7];
    assert a + b == [0x00, 0x01, 0xf2, 0x03, 0xf4, 0xf5, 0xf6, 0xf7];
    assert a[2..] == [0xf2, 0x03] && b[2..] == [0xf6, 0xf7];
    SumConcat(a, b, true);
  }

  // ---- Storing the checksum ----

  function FirstByte(w: int, big: bool): int {
    if big then w / 256 else w % 256
  }

  function SecondByte(w: int, big: bool): int {
    if big then w % 256 else w / 256
  }

  /** The message with the 16-bit word at even offset `k` overwritten, as the machine stores it. */
  function Store(b: seq<Byte>, k: nat, w: int, big: bool): (r: seq<Byte>)
    requires k % 2 == 0 && k + 1 < |b| && 0 <= w <= ONES
    ensures |r| == |b|
  {
    b[k := FirstByte(w, big)][k + 1 := SecondByte(w, big)]
  }

  function WordAt(b: seq<Byte>, k: nat, big: bool): int
    requires k + 1 < |b|
  {
    HostWord(b[k], b[k + 1], big)
  }

  lemma {:induction false} StoreSum(b: seq<Byte>, k: nat, w: int, big: bool)
    requires k % 2 == 0 && k + 1 < |b| && 0 <= w <= ONES
    ensures Sum(Store(b, k, w, big), big) == Sum(b, big) - WordAt(b, k, big) + w
    decreases k
  {
    var r := Store(b, k, w, big);
    if k == 0 {
      assert r[2..] == b[2..];
    } else {
      assert r[2..] == Store(b[2..], k - 2, w, big);
      StoreSum(b[2..], k - 2, w, big);
    }
  }

  /** Storing the checksum of a message whose checksum word is zero makes the
      message check out, wherever the word sits and whichever the byte order. */
  lemma StoredChecksumVerifies(b: seq<Byte>, k: nat, big: bool)
    requires |b| <= MAX_BYTES && k % 2 == 0 && k + 1 < |b| && WordAt(b, k, big) == 0
    ensures 0 <= Cksum(b, big) <= ONES
    ensures Cksum(Store(b, k, Cksum(b, big), big), big) == 0
  {
    var sum := Sum(b, big);
    CksumIsFold(b, big, sum);
    FoldCompletes(sum);
    StoreSum(b, k, Fold(sum), big);
    VerifiesIff(Store(b, k, Fold(sum), big), big);
  }

  /** The result tops the sum up to a nonzero multiple of 0xffff. */
  lemma FoldCompletes(sum: int)
    requires 0 <= sum < WRAP
    ensures 0 <= Fold(sum) <= ONES && sum + Fold(sum) > 0 && (sum + Fold(sum)) % ONES == 0
  {
    FoldMeaning(sum);
    if sum > 0 {
      var q := (sum - 1) / ONES;
      assert sum + Fold(sum) == ONES * (q + 1);
    }
  }

  /** Changing one word of a message that checks out goes unnoticed exactly when one
      of the two zeros of one's complement replaces the other and the message is not
      blank afterwards. */
  lemma SingleWordErrorMissedIff(b: seq<Byte>, k: nat, w: int, big: bool)
    requires |b| <= MAX_BYTES && k % 2 == 0 && k + 1 < |b| && 0 <= w <= ONES
    requires Cksum(b, big) == 0 && w != WordAt(b, k, big)
    ensures Cksum(Store(b, k, w, big), big) == 0 <==>
            && ((WordAt(b, k, big) == 0 && w == ONES) || (WordAt(b, k, big) == ONES && w == 0))
            && Sum(Store(b, k, w, big), big) > 0
  {
    VerifiesIff(b, big);
    StoreSum(b, k, w, big);
    VerifiesIff(Store(b, k, w, big), big);
    SameResidueIff(Sum(b, big), Sum(Store(b, k, w, big), big), WordAt(b, k, big), w);
  }

  lemma SameResidueIff(s: int, s': int, v: int, w: int)
    requires s % ONES == 0 && s' == s - v + w && 0 <= v <= ONES && 0 <= w <= ONES && v != w
    ensures s' % ONES == 0 <==> (v == 0 && w == ONES) || (v == ONES && w == 0)
  {
    var q, q' := s / ONES, s' / ONES;
    assert s == ONES * q;
    if s' % ONES == 0 {
      assert s' == ONES * q';
      assert w - v == ONES * (q' - q);
    }
  }

  // ---- Byte order ----

  function Swap(w: int): int {
    w % 256 * 256 + w / 256
  }

  /** The bytes at odd offsets. */
  function SecondBytes(b: seq<Byte>): nat {
    if |b| < 2 then 0 else b[1] + SecondBytes(b[2..])
  }

  lemma {:induction false} SumsRelate(b: seq<Byte>)
    ensures 256 * Sum(b, false) == Sum(b, true) + ONES * SecondBytes(b)
    ensures Sum(b, true) == 0 <==> Sum(b, false) == 0
  {
    if |b| >= 2 { SumsRelate(b[2..]); }
  }

  /** A machine of the other byte order computes the swapped word, and so stores the
      same two bytes: the checksum in memory does not depend on byte order. Odd
      lengths included. */
  lemma ByteOrderIndependent(b: seq<Byte>)
    requires |b| <= MAX_BYTES
    ensures Cksum(b, true) == Swap(Cksum(b, false))
    ensures FirstByte(Cksum(b, true), true) == FirstByte(Cksum(b, false), false)
    ensures SecondByte(Cksum(b, true), true) == SecondByte(Cksum(b, false), false)
  {
    CksumSwaps(b);
    SwapBytes(Cksum(b, false), Cksum(b, true));
  }

  lemma CksumSwaps(b: seq<Byte>)
    requires |b| <= MAX_BYTES
    ensures Cksum(b, true) == Swap(Cksum(b, false)) && 0 <= Cksum(b, false) <= ONES
  {
    var s, t := Sum(b, false), Sum(b, true);
    CksumIsFold(b, false, s);
    CksumIsFold(b, true, t);
    SumsRelate(b);
    FoldSwaps(s, t, SecondBytes(b));
  }

  lemma SwapBytes(w: int, w': int)
    requires 0 <= w <= ONES && w' == Swap(w)
    ensures FirstByte(w', true) == FirstByte(w, false) && SecondByte(w', true) == SecondByte(w, false)
  {
  }

  lemma FoldSwaps(s: int, t: int, l: int)
    requires 0 <= s < WRAP && 0 <= t < WRAP && 256 * s == t + ONES * l && (t == 0 <==> s == 0)
    ensures Fold(t) == Swap(Fold(s)) && 0 <= Fold(s) <= ONES
  {
    FoldMeaning(s);
    FoldMeaning(t);
    if s > 0 {
      var a, r := (s - 1) / ONES, (s - 1) % ONES + 1;
      assert s == ONES * a + r;
      SwapComplement(r);
      SwapShift(s, t, l, a, r);
      ResidueUnique(t, Swap(r), 256 * a + r / 256 - l);
    }
  }

  lemma SwapShift(s: int, t: int, l: int, a: int, r: int)
    requires 256 * s == t + ONES * l && s == ONES * a + r && 1 <= r <= ONES
    ensures t == ONES * (256 * a + r / 256 - l) + Swap(r)
  {
    assert r == 256 * (r / 256) + r % 256;
  }

  lemma SwapComplement(r: int)
    requires 1 <= r <= ONES
    ensures 1 <= Swap(r) <= ONES && Swap(ONES - r) == ONES - Swap(r)
  {
    var x, y := r / 256, r % 256;
    assert ONES - r == 256 * (255 - x) + (255 - y);
  }

  lemma AddThenWrap(a: int, b: int)
    ensures (a % WRAP + b) % WRAP == (a + b) % WRAP
  {
    assert a + b == WRAP * (a / WRAP) + (a % WRAP + b);
  }

  /** The source's loop, with its 32-bit accumulator. */
  method AddWords(addr: seq<Byte>, big: bool) returns (sum: int)
    ensures sum == Sum(addr, big) % WRAP
  {
    var nleft, w := |addr|, 0;
    sum := 0;
    ghost var total := Sum(addr, big) % WRAP;
    assert addr[0..] == addr;
    while nleft > 1
      invariant 0 <= nleft && w == |addr| - nleft && 0 <= sum < WRAP
      invariant (sum + Sum(addr[w..], big)) % WRAP == total
    {
      assert addr[w..][2..] == addr[w + 2..];
      AddThenWrap(sum + HostWord(addr[w], addr[w + 1], big), Sum(addr[w + 2..], big));
      sum := (sum + HostWord(addr[w], addr[w + 1], big)) % WRAP;
      w := w + 2;
      nleft := nleft - 2;
    }
    if nleft == 1 {
      sum := (sum + HostWord(addr[w], 0, big)) % WRAP;
    }
  }

  method InCksum(addr: seq<Byte>, big: bool) returns (answer: int)
    ensures answer == Cksum(addr, big)
  {
    var sum := AddWords(addr, big);
    sum := sum / 0x1_0000 + sum % 0x1_0000;
    sum := sum + sum / 0x1_0000;
    answer := ONES - sum % 0x1_0000;
  }
}
