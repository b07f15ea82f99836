/** The Internet checksum of net/ip.cpp (sections 1 and 2 of RFC 1071) and the
    two-stage UDP checksum of net/udp.cpp (RFC 768). The code adds the bytes as
    little-endian words. */
module Checksum {
  import opened Words

  const ONES := 0xFFFF

  type half = x: int | 0 <= x < TWO16

  // ----- sums of words

  /** The little-endian sum that the code computes; an odd last byte counts low. */
  function LeSum(bs: seq<byte>): nat {
    if bs == [] then 0
    else if |bs| == 1 then bs[0]
    else bs[0] + TWO8 * bs[1] + LeSum(bs[2..])
  }

  /** The sum as RFC 1071 states it, in network order; an odd last byte is padded. */
  function BeSum(bs: seq<byte>): nat {
    if bs == [] then 0
    else if |bs| == 1 then TWO8 * bs[0]
    else TWO8 * bs[0] + bs[1] + BeSum(bs[2..])
  }

  lemma {:induction false} LeSumAppend(a: seq<byte>, b: seq<byte>)
    requires |a| % 2 == 0
    ensures LeSum(a + b) == LeSum(a) + LeSum(b)
  {
    if a == [] {
      assert a + b == b;
    } else {
      LeSumAppend(a[2..], b);
      assert (a + b)[2..] == a[2..] + b;
    }
  }

  /** A word written at an even place adds the difference. */
  lemma {:induction false} LeSumPut(bs: seq<byte>, k: nat, lo: byte, hi: byte)
    requires k % 2 == 0 && k + 1 < |bs|
    ensures LeSum(bs[k := lo][k + 1 := hi]) == LeSum(bs) - (bs[k] + TWO8 * bs[k + 1]) + (lo + TWO8 * hi)
  {
    if k > 0 {
      LeSumPut(bs[2..], k - 2, lo, hi);
      assert bs[k := lo][k + 1 := hi][2..] == bs[2..][k - 2 := lo][k - 1 := hi];
    } else {
      assert bs[k := lo][k + 1 := hi][2..] == bs[2..];
    }
  }

  lemma {:induction false} LeSumBound(bs: seq<byte>)
    ensures LeSum(bs) <= ONES * ((|bs| + 1) / 2)
  {
    if |bs| > 1 {
      LeSumBound(bs[2..]);
    }
  }

  // ----- folding

  /** The fold loop of the code. */
  function Fold(sum: nat): half
    decreases sum
  {
    if sum < TWO16 then sum else Fold(sum % TWO16 + sum / TWO16)
  }

  /** The residue modulo 2^16 - 1, with 2^16 - 1 in place of zero for a sum that is
      not zero. */
  function Residue(sum: nat): half {
    if sum == 0 then 0 else (sum - 1) % ONES + 1
  }

  lemma {:induction false} FoldIsResidue(sum: nat)
    ensures Fold(sum) == Residue(sum)
    decreases sum
  {
    if sum >= TWO16 {
      FoldIsResidue(sum % TWO16 + sum / TWO16);
      ResidueLess(sum, sum / TWO16);
    }
  }

  lemma ResidueLess(sum: nat, q: nat)
    requires sum > q * ONES
    ensures Residue(sum - q * ONES) == Residue(sum)
  {
    assert sum - 1 == (sum - q * ONES - 1) + q * ONES;
    assert ((sum - q * ONES - 1) + q * ONES) % ONES == (sum - q * ONES - 1) % ONES;
  }

  /** A part may be folded before it is added. */
  lemma FoldPart(a: nat, b: nat)
    ensures Fold(a + Fold(b)) == Fold(a + b)
  {
    FoldIsResidue(b);
    FoldIsResidue(a + b);
    FoldIsResidue(a + Fold(b));
    if b > 0 {
      var q := (b - 1) / ONES;
      assert Residue(b) == b - q * ONES;
      ResidueLess(a + b, q);
    }
  }

  function Complement(x: half): half {
    ONES - x
  }

  /** With its own complement added, any sum folds to all ones. */
  lemma FoldComplement(sum: nat)
    ensures Fold(sum + Complement(Fold(sum))) == ONES
  {
    FoldIsResidue(sum);
    FoldIsResidue(sum + Complement(Fold(sum)));
    hide Fold;
    if sum > 0 {
      var q := (sum - 1) / ONES;
      assert sum + Complement(Fold(sum)) == (q + 1) * ONES;
      ResidueOfOnes(q);
    }
  }

  lemma ResidueOfOnes(q: nat)
    ensures Residue((q + 1) * ONES) == ONES
  {
    ResidueLess((q + 1) * ONES, q);
  }

  // ----- byte order

  function Swap16(x: half): half {
    x % TWO8 * TWO8 + x / TWO8
  }

  lemma {:induction false} BeSumIs(bs: seq<byte>)
    ensures exists k: nat :: TWO8 * LeSum(bs) == BeSum(bs) + k * ONES
    ensures BeSum(bs) == 0 <==> LeSum(bs) == 0
  {
    if |bs| > 1 {
      BeSumIs(bs[2..]);
      var k: nat :| TWO8 * LeSum(bs[2..]) == BeSum(bs[2..]) + k * ONES;
      assert TWO8 * LeSum(bs) == BeSum(bs) + (k + bs[1]) * ONES;
    } else {
      assert TWO8 * LeSum(bs) == BeSum(bs) + 0 * ONES;
    }
  }

  /** Byte order does not matter: the two sums fold to each other's swap, so both
      store the same two bytes. */
  lemma ByteOrder(bs: seq<byte>)
    ensures Fold(BeSum(bs)) == Swap16(Fold(LeSum(bs)))
    ensures Complement(Fold(BeSum(bs))) == Swap16(Complement(Fold(LeSum(bs))))
  {
    var le, be := LeSum(bs), BeSum(bs);
    BeSumIs(bs);
    var k: nat :| TWO8 * le == be + k * ONES;
    FoldIsResidue(le);
    FoldIsResidue(be);
    if le > 0 {
      ResidueLess(TWO8 * le, k);
      SwapResidue(le);
    }
    SwapComplement(Fold(le));
  }

  lemma SwapResidue(s: nat)
    requires s > 0
    ensures Residue(TWO8 * s) == Swap16(Residue(s))
  {
    var r := Residue(s);
    var q := (s - 1) / ONES;
    assert s == r + q * ONES;
    ResidueLess(TWO8 * s, TWO8 * q);
    assert TWO8 * s - TWO8 * q * ONES == TWO8 * r;
    var hi, lo := r / TWO8, r % TWO8;
    assert TWO8 * r == lo * TWO8 + hi + hi * ONES;
    ResidueLess(TWO8 * r, hi);
  }

  lemma SwapComplement(x: half)
    ensures Swap16(Complement(x)) == Complement(Swap16(x))
  {
    var hi, lo := x / TWO8, x % TWO8;
    assert ONES - x == (0xFF - hi) * TWO8 + (0xFF - lo);
    assert (ONES - x) % TWO8 == 0xFF - lo && (ONES - x) / TWO8 == 0xFF - hi;
  }

  // ----- the code

  function Lo(c: half): byte {
    c % TWO8
  }

  function Hi(c: half): byte {
    c / TWO8
  }

  lemma SumNext(bs: seq<byte>, k: nat, n: nat)
    requires k % 2 == 0 && k < |bs| && n == (if k + 1 < |bs| then 2 else 1)
    ensures LeSum(bs[..k + n]) == LeSum(bs[..k]) + bs[k] + if n == 2 then TWO8 * bs[k + 1] else 0
  {
    LeSumAppend(bs[..k], bs[k..k + n]);
    assert bs[..k + n] == bs[..k] + bs[k..k + n];
    if n == 2 {
      assert bs[k..k + n] == [bs[k], bs[k + 1]];
      OneWord(bs[k], bs[k + 1]);
    }
  }

  lemma SumNothing(bs: seq<byte>)
    ensures U32(LeSum(bs[..0])) == 0
  {
  }

  /** The summing loop of RFC1071_checksum(). */
  method Accumulate(buf: array<byte>, from: nat, len: nat) returns (sum: word)
    requires from + len <= buf.Length
    ensures sum == U32(LeSum(buf[from..from + len]))
  {
    hide U32, LeSum;
    ghost var all := buf[from..from + len];
    var words, k := len / 2, 0;
    sum := 0;
    SumNothing(all);
    while k < words
      invariant 0 <= k <= words
      invariant sum == U32(LeSum(all[..2 * k]))
    {
      var w := buf[from + 2 * k] + TWO8 * buf[from + 2 * k + 1];
      SumNext(all, 2 * k, 2);
      U32Add(LeSum(all[..2 * k]), w);
      sum := U32(sum + w);
      k := k + 1;
    }
    if len % 2 == 1 {
      SumNext(all, 2 * k, 1);
      U32Add(LeSum(all[..2 * k]), buf[from + 2 * k]);
      sum := U32(sum + buf[from + 2 * k]);
    }
    assert all[..len] == all;
  }

  /** Its folding loop. */
  method FoldLoop(total: word) returns (sum: half)
    ensures sum == Fold(total)
  {
    var acc: word := total;
    while acc / TWO16 != 0
      invariant Fold(acc) == Fold(total)
      decreases acc
    {
      acc := acc % TWO16 + acc / TWO16;
    }
    sum := acc;
  }

  /** RFC1071_checksum(). The 32-bit accumulator holds the sum of up to 131072
      bytes. */
  method Rfc1071(buf: array<byte>, from: nat, len: nat) returns (c: half)
    requires from + len <= buf.Length
    ensures LeSum(buf[from..from + len]) < TWO32 ==> c == Complement(Fold(LeSum(buf[from..from + len])))
    ensures len <= 0x2_0000 ==> LeSum(buf[from..from + len]) < TWO32
  {
    hide Fold, LeSum;
    LeSumBound(buf[from..from + len]);
    var sum := Accumulate(buf, from, len);
    var folded := FoldLoop(sum);
    c := Complement(folded);
  }

  lemma OneWord(lo: byte, hi: byte)
    ensures LeSum([lo, hi]) == lo + TWO8 * hi
  {
    assert [lo, hi][2..] == [];
  }

  const UDP := 34        // offset of the UDP header in a frame

  /** The pseudo header of RFC 768 for a UDP frame. */
  function Pseudo(f: seq<byte>): seq<byte>
    requires |f| >= UDP + 8
  {
    var proto: seq<byte> := [0, f[23]];
    f[26..34] + proto + f[38..40]
  }

  /** The frame's UDP segment with the checksum field cleared. */
  function Cleared(f: seq<byte>, size: nat): seq<byte>
    requires UDP + 8 <= size <= |f|
  {
    var segment := f[UDP..size];
    segment[6 := 0][7 := 0]
  }

  /** The 14 bytes of the second stage add up to the pseudo header and the first
      stage's sum. */
  lemma SecondStage(f: seq<byte>, c: half)
    requires |f| >= UDP + 8
    ensures LeSum(f[26..34] + f[38..40] + [Lo(c), Hi(c)] + [0, f[23]]) == LeSum(Pseudo(f)) + c
  {
    var p: seq<byte> := [0, f[23]];
    var a, b, l := f[26..34], [Lo(c), Hi(c)], f[38..40];
    LeSumAppend(a + l + b, p);
    LeSumAppend(a + l, b);
    LeSumAppend(a, l);
    LeSumAppend(a + p, l);
    LeSumAppend(a, p);
    OneWord(Lo(c), Hi(c));
  }

  /** What makes a finished frame right. */
  predicate Finished(f: seq<byte>, size: nat)
    requires UDP + 8 <= size <= |f|
  {
    var one := Pseudo(f) + Cleared(f, size);
    var whole := Pseudo(f) + f[UDP..size];
    // the length, in network order
    && TWO8 * f[38] + f[39] == size - UDP
    // the checksum of RFC 768 in one pass, by either byte order
    && f[40] + TWO8 * f[41] == Complement(Fold(LeSum(one)))
    && TWO8 * f[40] + f[41] == Complement(Fold(BeSum(one)))
    // the receiver's sum
    && Fold(LeSum(whole)) == ONES && Fold(BeSum(whole)) == ONES
  }

  /** Two stages make the checksum of one pass, which the receiver confirms. */
  lemma TwoStagesSuffice(f: seq<byte>, size: nat, c: half)
    requires UDP + 8 <= size <= |f| && TWO8 * f[38] + f[39] == size - UDP
    requires c == Complement(Fold(LeSum(Pseudo(f)) + Fold(LeSum(Cleared(f, size)))))
    requires f[40] == Lo(c) && f[41] == Hi(c)
    ensures Finished(f, size)
  {
    hide Fold, BeSum;
    var zero: seq<byte>, seg: seq<byte>, p := Cleared(f, size), f[UDP..size], Pseudo(f);
    LeSumAppend(p, zero);
    LeSumAppend(p, seg);
    FoldPart(LeSum(p), LeSum(zero));
    LeSumPut(zero, 6, f[40], f[41]);
    assert zero[6 := f[40]][7 := f[41]] == seg;
    assert LeSum(p + seg) == LeSum(p + zero) + c;
    FoldComplement(LeSum(p + zero));
    ByteOrder(p + zero);
    ByteOrder(p + seg);
    assert Swap16(ONES) == ONES;
  }

  /** The stored checksum is zero, which RFC 768 reserves for "none", exactly when
      the sum is a multiple of 2^16 - 1 other than zero. */
  lemma ZeroChecksumExactly(sum: nat)
    ensures Complement(Fold(sum)) == 0 <==> sum > 0 && sum % ONES == 0
  {
    FoldIsResidue(sum);
  }

  /** What is summed for the checksum in one pass. */
  function Summed(f: seq<byte>, size: nat): nat
    requires UDP + 8 <= size <= |f|
  {
    LeSum(Pseudo(f) + Cleared(f, size))
  }

  lemma {:induction false} LeSumPositive(bs: seq<byte>, i: nat)
    requires i < |bs| && bs[i] > 0
    ensures LeSum(bs) > 0
  {
    if i > 1 {
      LeSumPositive(bs[2..], i - 2);
    }
  }

  /** A finished frame announces no checksum exactly when its sum is a multiple of
      2^16 - 1; the sum is never zero, for the length is part of it. */
  lemma FinishedZeroExactly(f: seq<byte>, size: nat)
    requires UDP + 8 <= size <= |f| && Finished(f, size)
    ensures f[40] == 0 && f[41] == 0 <==> Summed(f, size) % ONES == 0
  {
    hide Fold;
    var one := Pseudo(f) + Cleared(f, size);
    var i := if f[38] > 0 then 10 else 11;
    assert one[10] == f[38] && one[11] == f[39];
    LeSumPositive(one, i);
    ZeroChecksumExactly(LeSum(one));
  }

  /** An empty datagram from port 65502 to port 0, between zero addresses. */
  const UNPROTECTED: seq<byte> := [
    0, 0, 0, 0, 0, 0, 0, 0, 0, 0, 0, 0, 0, 0, 0, 0, 0, 0, 0, 0, 0, 0, 0, 17,
    0, 0, 0, 0, 0, 0, 0, 0, 0, 0, 0xFF, 0xDE, 0, 0, 0, 8, 0, 0]

  /** It is finished as it stands and announces that it has no checksum. */
  lemma UnprotectedFrame()
    ensures |UNPROTECTED| == 42 && Finished(UNPROTECTED, 42)
    ensures UNPROTECTED[40] == 0 && UNPROTECTED[41] == 0
  {
    hide Fold, LeSum, Complement;
    var f, zero: half := UNPROTECTED, 0;
    UnprotectedSum();
    FoldIsResidue(LeSum(Pseudo(f)) + Fold(LeSum(Cleared(f, 42))));
    LeSumAppend(Pseudo(f), Cleared(f, 42));
    FoldPart(LeSum(Pseudo(f)), LeSum(Cleared(f, 42)));
    ZeroChecksumExactly(Summed(f, 42));
    TwoStagesSuffice(f, 42, zero);
  }

  lemma FirstWord(lo: byte, hi: byte, bs: seq<byte>)
    ensures LeSum([lo, hi] + bs) == lo + TWO8 * hi + LeSum(bs)
  {
    assert ([lo, hi] + bs)[2..] == bs;
  }

  lemma {:induction false} LeSumOfZeros(n: nat)
    ensures LeSum(seq(n, _ => 0)) == 0
  {
    if n > 1 {
      LeSumOfZeros(n - 2);
      assert seq(n, _ => 0 as byte)[2..] == seq(n - 2, _ => 0 as byte);
    }
  }

  lemma UnprotectedSum()
    ensures Summed(UNPROTECTED, 42) == ONES
  {
    hide LeSum;
    var zeros: seq<byte>, tail: seq<byte> := seq(8, _ => 0), seq(2, _ => 0);
    var rest := [0xFF, 0xDE] + ([0, 0] + ([0, 8] + tail));
    var words := [0, 17] + ([0, 8] + rest);
    UnprotectedWords();
    LeSumAppend(zeros, words);
    LeSumOfZeros(8);
    LeSumOfZeros(2);
    FirstWord(0, 17, [0, 8] + rest);
    FirstWord(0, 8, rest);
    FirstWord(0xFF, 0xDE, [0, 0] + ([0, 8] + tail));
    FirstWord(0, 0, [0, 8] + tail);
    FirstWord(0, 8, tail);
  }

  lemma UnprotectedWords()
    ensures var zeros: seq<byte>, tail: seq<byte> := seq(8, _ => 0), seq(2, _ => 0);
      Pseudo(UNPROTECTED) + Cleared(UNPROTECTED, 42)
      == zeros + ([0, 17] + ([0, 8] + ([0xFF, 0xDE] + ([0, 0] + ([0, 8] + tail)))))
  {
  }

  /** The frame with the first word of the data replaced. */
  function WithData(f: seq<byte>, w: half): seq<byte>
    requires |f| >= UDP + 10
  {
    f[42 := Lo(w)][43 := Hi(w)]
  }

  /** Whatever the headers and the rest of the data, some value of the first word of
      the data makes the frame announce that. */
  lemma SomeDataStoreZero(f: seq<byte>, size: nat)
    requires UDP + 10 <= size <= |f|
    ensures exists w: half :: Summed(WithData(f, w), size) % ONES == 0
  {
    hide LeSum;
    var base := Summed(WithData(f, 0), size);
    var w: half := ONES - base % ONES;
    var a: seq<byte> := Pseudo(WithData(f, 0)) + Cleared(WithData(f, 0), size);
    var g := WithData(f, w);
    assert Pseudo(WithData(f, 0)) == Pseudo(f) == Pseudo(g);
    assert Pseudo(g) + Cleared(g, size) == a[20 := Lo(w)][21 := Hi(w)];
    LeSumPut(a, 20, Lo(w), Hi(w));
    assert Summed(g, size) == base + w;
    assert base + w == (base / ONES + 1) * ONES;
  }

  /** The second stage of UDP_finalize(): the pseudo header with the first stage's
      sum in it. */
  method FinishSum(frame: array<byte>, folded: half) returns (c: half)
    requires frame.Length >= UDP + 8
    ensures c == Complement(Fold(LeSum(Pseudo(frame[..])) + folded))
  {
    hide Fold, LeSum;
    ghost var f := frame[..];
    var buf := new byte[][
      frame[26], frame[27], frame[28], frame[29], frame[30], frame[31], frame[32], frame[33],
      frame[38], frame[39], Lo(folded), Hi(folded), 0, frame[23]];
    assert buf[0..14] == f[26..34] + f[38..40] + [Lo(folded), Hi(folded)] + [0, f[23]];
    SecondStage(f, folded);
    assert 14 <= 0x2_0000;
    c := Rfc1071(buf, 0, 14);
  }

  /** UDP_finalize() */
  method UdpFinalize(frame: array<byte>, size: nat)
    requires UDP + 8 <= size <= frame.Length && size - UDP < TWO16
    modifies frame
    ensures Finished(frame[..], size)
    // no checksum is announced exactly for these sums
    ensures frame[40] == 0 && frame[41] == 0 <==> Summed(frame[..], size) % ONES == 0
    ensures forall i :: 0 <= i < frame.Length && !(38 <= i < 42) ==> frame[i] == old(frame[i])
  {
    hide Fold, LeSum, BeSum, Finished, Summed;
    var length := size - UDP;
    frame[38], frame[39] := length / TWO8, length % TWO8;
    frame[40], frame[41] := 0, 0;
    var partial := Rfc1071(frame, UDP, length);
    ghost var f: seq<byte> := frame[..];
    assert frame[UDP..size] == Cleared(f, size);
    var c := FinishSum(frame, Complement(partial));
    frame[40], frame[41] := Lo(c), Hi(c);
    ghost var g: seq<byte> := frame[..];
    assert g == f[40 := Lo(c)][41 := Hi(c)];
    OnlyChecksum(f, size, Lo(c), Hi(c));
    TwoStagesSuffice(g, size, c);
    FinishedZeroExactly(g, size);
  }

  lemma OnlyChecksum(f: seq<byte>, size: nat, lo: byte, hi: byte)
    requires UDP + 8 <= size <= |f|
    ensures Pseudo(f[40 := lo][41 := hi]) == Pseudo(f)
    ensures Cleared(f[40 := lo][41 := hi], size) == Cleared(f, size)
  {
  }

  /** IPv4_finalize(), from the frame's length on. */
  method Ipv4Finalize(frame: array<byte>, flen: nat)
    requires UDP <= frame.Length && 14 <= flen && flen - 14 < TWO16
    modifies frame
    ensures TWO8 * frame[16] + frame[17] == flen - 14 && frame[12] == 0x08 && frame[13] == 0x00
    ensures Fold(LeSum(frame[14..34])) == ONES && Fold(BeSum(frame[14..34])) == ONES
    ensures forall i :: 0 <= i < frame.Length && i !in {12, 13, 16, 17, 24, 25} ==> frame[i] == old(frame[i])
  {
    hide Fold, LeSum, BeSum;
    frame[12], frame[13] := 0x08, 0x00;
    frame[16], frame[17] := (flen - 14) / TWO8, (flen - 14) % TWO8;
    frame[24], frame[25] := 0, 0;
    var c := Rfc1071(frame, 14, 20);
    ghost var head: seq<byte> := frame[14..34];
    frame[24], frame[25] := Lo(c), Hi(c);
    LeSumPut(head, 10, Lo(c), Hi(c));
    assert frame[14..34] == head[10 := Lo(c)][11 := Hi(c)];
    FoldComplement(LeSum(head));
    ByteOrder(frame[14..34]);
    assert Swap16(ONES) == ONES;
  }
}
