/** The test of NMEA lines of gps.cpp: an exclusive-or checksum behind a star. */
module Nmea {
  import opened Words

  const STAR: byte := 0x2A

  function Pow2(n: nat): nat {
    if n == 0 then 1 else 2 * Pow2(n - 1)
  }

  /** The exclusive or of n bits. */
  function XorBits(a: nat, b: nat, n: nat): (r: nat)
    ensures r < Pow2(n)
  {
    if n == 0 then 0 else 2 * XorBits(a / 2, b / 2, n - 1) + if a % 2 == b % 2 then 0 else 1
  }

  /** The inclusive or of n bits. */
  function OrBits(a: nat, b: nat, n: nat): (r: nat)
    ensures r < Pow2(n)
  {
    if n == 0 then 0
    else 2 * OrBits(a / 2, b / 2, n - 1) + if a % 2 == 1 || b % 2 == 1 then 1 else 0
  }

  lemma EightBits()
    ensures Pow2(8) == TWO8
  {
    assert Pow2(4) == 16;
    assert Pow2(6) == 64;
  }

  function Xor(a: byte, b: byte): byte {
    EightBits();
    XorBits(a, b, 8)
  }

  lemma {:induction false} XorBitsTwice(a: nat, b: nat, n: nat)
    requires a < Pow2(n)
    ensures XorBits(XorBits(a, b, n), b, n) == a
  {
    if n > 0 {
      XorBitsTwice(a / 2, b / 2, n - 1);
      var x := XorBits(a, b, n);
      assert x / 2 == XorBits(a / 2, b / 2, n - 1) && x % 2 == if a % 2 == b % 2 then 0 else 1;
    }
  }

  lemma {:induction false} XorBitsCommute(a: nat, b: nat, n: nat)
    ensures XorBits(a, b, n) == XorBits(b, a, n)
  {
    if n > 0 {
      XorBitsCommute(a / 2, b / 2, n - 1);
    }
  }

  lemma XorTwice(a: byte, b: byte)
    ensures Xor(Xor(a, b), b) == a
  {
    hide XorBits;
    EightBits();
    XorBitsTwice(a, b, 8);
  }

  lemma XorSame(a: byte, b: byte, c: byte)
    ensures Xor(a, c) == Xor(b, c) ==> a == b
    ensures Xor(c, a) == Xor(c, b) ==> a == b
  {
    hide XorBits;
    XorTwice(a, c);
    XorTwice(b, c);
    XorBitsCommute(a, c, 8);
    XorBitsCommute(b, c, 8);
  }

  function Bit(a: nat, k: nat): nat {
    if k == 0 then a % 2 else Bit(a / 2, k - 1)
  }

  /** A bit is set exactly when it is set in one argument only. */
  lemma {:induction false} XorBitIs(a: nat, b: nat, n: nat, k: nat)
    requires k < n
    ensures Bit(XorBits(a, b, n), k) == 1 <==> Bit(a, k) != Bit(b, k)
  {
    var x := XorBits(a, b, n);
    assert x / 2 == XorBits(a / 2, b / 2, n - 1) && x % 2 == if a % 2 == b % 2 then 0 else 1;
    if k > 0 {
      XorBitIs(a / 2, b / 2, n - 1, k - 1);
    }
  }

  function XorAll(text: seq<byte>): byte {
    if text == [] then 0 else Xor(XorAll(text[..|text| - 1]), text[|text| - 1])
  }

  /** fromHex() */
  function FromHex(c: byte): byte {
    (if c < 0x41 then c - 0x30 else if c < 0x61 then c - 0x37 else c - 0x57) % TWO8
  }

  function FromHexPair(high: byte, low: byte): byte {
    EightBits();
    OrBits(FromHex(high) * 16 % TWO8, FromHex(low), 8)
  }

  /** The digits in the order of their values; both cases of the letters count. */
  lemma HexDigits(v: nat)
    ensures v < 10 ==> FromHex('0' as int + v) == v
    ensures 10 <= v < 16 ==> FromHex('A' as int + v - 10) == v && FromHex('a' as int + v - 10) == v
  {
  }

  lemma {:induction false} OrOfNone(a: nat, n: nat)
    requires a < Pow2(n)
    ensures OrBits(a, 0, n) == a
  {
    if n > 0 {
      OrOfNone(a / 2, n - 1);
    }
  }

  lemma {:induction false} OrOfApart(a: nat, b: nat, k: nat, n: nat)
    requires k <= n && b < Pow2(k) && a * Pow2(k) < Pow2(n)
    ensures OrBits(a * Pow2(k), b, n) == a * Pow2(k) + b
  {
    if k == 0 {
      OrOfNone(a, n);
    } else {
      var h := a * Pow2(k - 1);
      assert a * Pow2(k) == 2 * h;
      OrOfApart(a, b / 2, k - 1, n - 1);
    }
  }

  /** Two digits make sixteen times the first and the second. */
  lemma HexPairIs(high: byte, low: byte)
    requires FromHex(high) < 16 && FromHex(low) < 16
    ensures FromHexPair(high, low) == 16 * FromHex(high) + FromHex(low)
  {
    hide FromHex, OrBits;
    var a: int, b: int := FromHex(high), FromHex(low);
    EightBits();
    assert Pow2(4) == 16;
    OrOfApart(a, b, 4, 8);
  }

  /** The first star of the line is at place i. */
  predicate StarAt(line: seq<byte>, i: nat) {
    1 <= i < |line| - 2 && line[i] == STAR && STAR !in line[1..i]
  }

  /** A line, of which the last two bytes are its end and the zero behind it, counts
      unless it has a star and the two digits behind that are not the checksum. */
  predicate Counts(line: seq<byte>) {
    forall i: nat :: i < |line| && StarAt(line, i) ==> FromHexPair(line[i + 1], line[i + 2]) == XorAll(line[1..i])
  }

  /** With one byte before the star changed, a line that counted with its checksum
      counts no more. */
  lemma OneNmeaErrorRejected(line: seq<byte>, i: nat, k: nat, x: byte)
    requires Counts(line) && StarAt(line, i) && 1 <= k < i && x != line[k] && x != STAR
    ensures !Counts(line[k := x])
  {
    hide FromHexPair;
    assert line[k := x][1..i] == line[1..i][k - 1 := x];
    XorAllMoves(line[1..i], k - 1, x);
    assert StarAt(line[k := x], i);
  }

  lemma {:induction false} XorAllMoves(text: seq<byte>, k: nat, x: byte)
    requires k < |text| && x != text[k]
    ensures XorAll(text[k := x]) != XorAll(text)
    decreases |text|
  {
    hide Xor;
    var n := |text| - 1;
    if k == n {
      assert text[k := x][..n] == text[..n];
      XorSame(x, text[k], XorAll(text[..n]));
    } else {
      assert text[k := x][..n] == text[..n][k := x];
      XorAllMoves(text[..n], k, x);
      XorSame(XorAll(text[..n][k := x]), XorAll(text[..n]), text[n]);
    }
  }

  /** processNEMA(): whether the line counts. */
  method ProcessNema(msg: array<byte>, len: nat) returns (counts: bool)
    requires len + 2 <= msg.Length
    ensures counts == Counts(msg[..len + 2])
  {
    hide Xor, FromHexPair;
    ghost var line: seq<byte> := msg[..len + 2];
    var csum: byte := 0;
    var chksum := 0;
    var ptr := 1;
    while ptr < len
      invariant 1 <= ptr && (ptr <= len || ptr == 1) && chksum == 0
      invariant csum == XorAll(line[1..ptr]) && STAR !in line[1..ptr]
    {
      var c := msg[ptr];
      csum := Xor(csum, c);
      if c == STAR {
        csum := Xor(csum, c);
        XorTwice(XorAll(line[1..ptr]), c);
        chksum := ptr + 1;
        break;
      }
      assert line[1..ptr + 1] == line[1..ptr] + [c];
      XorAllNext(line[1..ptr], c);
      ptr := ptr + 1;
    }
    if chksum != 0 {
      OnlyStar(line, ptr);
      return FromHexPair(msg[chksum], msg[chksum + 1]) == csum;
    }
    NoStar(line, ptr);
    return true;
  }

  lemma XorAllNext(text: seq<byte>, c: byte)
    ensures XorAll(text + [c]) == Xor(XorAll(text), c)
  {
    assert (text + [c])[..|text|] == text;
  }

  lemma StarIn(line: seq<byte>, i: nat, j: nat)
    requires 1 <= i < j < |line|
    ensures line[i] == STAR ==> STAR in line[1..j]
  {
    assert line[1..j][i - 1] == line[i];
  }

  lemma OnlyStar(line: seq<byte>, i: nat)
    requires StarAt(line, i)
    ensures Counts(line) <==> FromHexPair(line[i + 1], line[i + 2]) == XorAll(line[1..i])
  {
    hide FromHexPair, XorAll;
    forall j: nat | j < |line| && j != i
      ensures !StarAt(line, j)
    {
      if 1 <= j < i {
        StarIn(line, j, i);
      } else if i < j {
        StarIn(line, i, j);
      }
    }
  }

  lemma NoStar(line: seq<byte>, n: nat)
    requires 1 <= n && |line| - 2 <= n < |line| && STAR !in line[1..n]
    ensures Counts(line)
  {
    forall j: nat | 1 <= j < n
      ensures !StarAt(line, j)
    {
      StarIn(line, j, n);
    }
  }
}
