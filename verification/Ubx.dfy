/** The UBX printer and the parser of gps.cpp, on values. */
module Ubx {
  import opened Words
  import opened Nmea

  const MAX_LENGTH := 256
  const MAX_PAYLOAD := 512
  const SYNC1: byte := 0xB5
  const SYNC2: byte := 0x62
  const DOLLAR: byte := 0x24

  // ----- the 8-bit Fletcher checksum

  datatype Check = Check(a: byte, b: byte)

  function Fold(c: Check, x: byte): Check {
    var a: byte := (c.a + x) % TWO8;
    Check(a, (c.b + a) % TWO8)
  }

  function Fletcher(bs: seq<byte>): Check {
    if bs == [] then Check(0, 0) else Fold(Fletcher(bs[..|bs| - 1]), bs[|bs| - 1])
  }

  lemma FletcherNext(bs: seq<byte>, x: byte)
    ensures Fletcher(bs + [x]) == Fold(Fletcher(bs), x)
  {
    assert (bs + [x])[..|bs|] == bs;
  }

  // ----- the printer

  function Body(cls: byte, id: byte, payload: seq<byte>): seq<byte>
    requires |payload| < TWO16
  {
    [cls, id, |payload| % TWO8, |payload| / TWO8] + payload
  }

  /** The bytes of a message on the wire. */
  function Print(cls: byte, id: byte, payload: seq<byte>): seq<byte>
    requires |payload| < TWO16
  {
    var body := Body(cls, id, payload);
    var c := Fletcher(body);
    [SYNC1, SYNC2] + body + [c.a, c.b]
  }

  // ----- processUBX()

  /** The checksum test over bytes 2 to len - 2. */
  predicate Accepts(frame: seq<byte>) {
    |frame| >= 4 &&
    var c := Fletcher(frame[2..|frame| - 2]);
    c.a == frame[|frame| - 2] && c.b == frame[|frame| - 1]
  }

  /** The handler that processUBX() calls. */
  datatype Handler = None | Pvt(payload: seq<byte>) | GpsTime(payload: seq<byte>) | Clock(payload: seq<byte>)

  function Size(frame: seq<byte>): nat
    requires |frame| >= 6
  {
    frame[4] + TWO8 * frame[5]
  }

  function Process(frame: seq<byte>): Handler
    requires 8 <= |frame|
  {
    if !Accepts(frame) || frame[2] != 0x01 then None
    else if frame[3] == 0x07 && Size(frame) == 92 then Pvt(frame[6..])
    else if frame[3] == 0x20 && Size(frame) == 16 then GpsTime(frame[6..])
    else if frame[3] == 0x22 && Size(frame) == 20 then Clock(frame[6..])
    else None
  }

  /** processUBX(): which handler it calls, and with what. */
  method ProcessUbx(msg: array<byte>, len: nat) returns (handler: Handler)
    requires 8 <= len <= msg.Length
    ensures handler == Process(msg[..len])
  {
    hide Fletcher, Fold;
    ghost var f: seq<byte> := msg[..len];
    ghost var body := f[2..len - 2];
    var c := Check(0, 0);
    FletcherOfNone();
    var i := 2;
    assert body[..0] == [];
    while i < len - 2
      invariant 2 <= i <= len - 2 && c == Fletcher(body[..i - 2])
    {
      var a: byte := (c.a + msg[i]) % TWO8;
      FletcherNext(body[..i - 2], msg[i]);
      FoldIs(c, msg[i]);
      assert body[..i - 1] == body[..i - 2] + [msg[i]];
      c := Check(a, (c.b + a) % TWO8);
      i := i + 1;
    }
    assert body[..i - 2] == body;
    if c.a != msg[len - 2] || c.b != msg[len - 1] {
      return None;
    }
    var cls, id := msg[2], msg[3];
    var size := msg[4] + TWO8 * msg[5];
    if cls == 0x01 {
      if id == 0x07 && size == 92 {
        return Pvt(msg[6..len]);
      }
      if id == 0x20 && size == 16 {
        return GpsTime(msg[6..len]);
      }
      if id == 0x22 && size == 20 {
        return Clock(msg[6..len]);
      }
    }
    return None;
  }

  lemma FletcherOfNone()
    ensures Fletcher([]) == Check(0, 0)
  {
  }

  lemma FoldIs(c: Check, x: byte)
    ensures Fold(c, x) == Check((c.a + x) % TWO8, (c.b + (c.a + x) % TWO8) % TWO8)
  {
  }

  /** A printed message passes the test and its parts are found again. */
  lemma PrintIsAccepted(cls: byte, id: byte, payload: seq<byte>)
    requires |payload| < TWO16
    ensures var f := Print(cls, id, payload);
      && |f| == |payload| + 8 && Accepts(f)
      && f[0] == 0xB5 && f[1] == 0x62 && f[2] == cls && f[3] == id
      && Size(f) == |payload| && f[6..6 + |payload|] == payload
  {
    var f, body := Print(cls, id, payload), Body(cls, id, payload);
    assert f[2..|f| - 2] == body;
  }

  /** A printed message reaches the handler of its class, identifier and size, with its
      payload in front of the checksum, and any other message none. */
  lemma DispatchExactly(cls: byte, id: byte, payload: seq<byte>)
    requires |payload| < TWO16
    ensures var h, n := Process(Print(cls, id, payload)), |payload|;
      && (h.Pvt? <==> cls == 0x01 && id == 0x07 && n == 92)
      && (h.GpsTime? <==> cls == 0x01 && id == 0x20 && n == 16)
      && (h.Clock? <==> cls == 0x01 && id == 0x22 && n == 20)
      && (!h.None? ==> |h.payload| == n + 2 && h.payload[..n] == payload)
  {
    hide Print, Accepts;
    PrintIsAccepted(cls, id, payload);
    var f := Print(cls, id, payload);
    assert f[6..][..|payload|] == f[6..6 + |payload|];
  }

  /** A frame that fails the checksum test reaches no handler. */
  lemma WrongChecksumIgnored(f: seq<byte>)
    requires 8 <= |f| && !Accepts(f)
    ensures Process(f) == None
  {
  }

  function Total(bs: seq<byte>): int {
    if bs == [] then 0 else Total(bs[..|bs| - 1]) + bs[|bs| - 1]
  }

  /** The first sum is the plain sum of the bytes modulo 256. */
  lemma {:induction false} FirstSum(bs: seq<byte>)
    ensures Fletcher(bs).a == Total(bs) % TWO8
  {
    if bs != [] {
      var n := |bs| - 1;
      FirstSum(bs[..n]);
      ModStep(Total(bs[..n]), bs[n]);
    }
  }

  /** The bytes, each as often as there are bytes from it on. */
  function Weighted(bs: seq<byte>): int {
    if bs == [] then 0 else |bs| * bs[0] + Weighted(bs[1..])
  }

  lemma {:induction false} TotalFirst(bs: seq<byte>)
    requires bs != []
    ensures Total(bs) == bs[0] + Total(bs[1..])
  {
    var n := |bs| - 1;
    if n > 0 {
      TotalFirst(bs[..n]);
      assert bs[1..][..n - 1] == bs[..n][1..];
    } else {
      assert bs[..0] == bs[1..] == [];
    }
  }

  lemma {:induction false} WeightedLast(bs: seq<byte>)
    requires bs != []
    ensures Weighted(bs) == Weighted(bs[..|bs| - 1]) + Total(bs)
    decreases |bs|
  {
    hide Total;
    var n := |bs| - 1;
    TotalFirst(bs);
    if n > 0 {
      WeightedLast(bs[1..]);
      assert bs[1..][..n - 1] == bs[..n][1..];
    } else {
      TotalNone();
      assert bs[..0] == bs[1..] == [];
    }
  }

  lemma TotalNone()
    ensures Total([]) == 0
  {
  }

  /** The second sum is the weighted one modulo 256. */
  lemma {:induction false} SecondSum(bs: seq<byte>)
    ensures Fletcher(bs).b == Weighted(bs) % TWO8
  {
    if bs != [] {
      var n := |bs| - 1;
      SecondSum(bs[..n]);
      FirstSum(bs);
      WeightedLast(bs);
      ModSum(Weighted(bs[..n]), Total(bs));
      hide Weighted, Total;
    }
  }

  lemma ModSum(t: int, x: int)
    ensures (t % TWO8 + x % TWO8) % TWO8 == (t + x) % TWO8
  {
  }

  lemma ModStep(t: int, x: int)
    ensures (t % TWO8 + x) % TWO8 == (t + x) % TWO8
  {
  }

  lemma {:induction false} TotalMoves(bs: seq<byte>, k: nat, x: byte)
    requires k < |bs|
    ensures Total(bs[k := x]) == Total(bs) - bs[k] + x
    decreases |bs|
  {
    var n := |bs| - 1;
    if k == n {
      assert bs[k := x][..n] == bs[..n];
    } else {
      assert bs[k := x][..n] == bs[..n][k := x];
      TotalMoves(bs[..n], k, x);
    }
  }

  lemma NotCongruent(t: int, d: int)
    requires -TWO8 < d < TWO8 && d != 0
    ensures (t + d) % TWO8 != t % TWO8
  {
  }

  /** One wrong byte after the preamble is always noticed. */
  lemma OneByteErrorRejected(f: seq<byte>, k: nat, x: byte)
    requires Accepts(f) && 2 <= k < |f| && x != f[k]
    ensures !Accepts(f[k := x])
  {
    var g := f[k := x];
    if k < |f| - 2 {
      hide Fletcher, Total;
      var body := f[2..|f| - 2];
      assert g[2..|f| - 2] == body[k - 2 := x];
      FirstSum(body);
      FirstSum(body[k - 2 := x]);
      TotalMoves(body, k - 2, x);
      NotCongruent(Total(body), x - f[k]);
    } else {
      assert g[2..|f| - 2] == f[2..|f| - 2];
    }
  }

  lemma {:induction false} WeightedSwaps(bs: seq<byte>, k: nat)
    requires k + 1 < |bs|
    ensures Weighted(bs[k := bs[k + 1]][k + 1 := bs[k]]) == Weighted(bs) + bs[k + 1] - bs[k]
    decreases k
  {
    var cs := bs[k := bs[k + 1]][k + 1 := bs[k]];
    if k == 0 {
      assert cs[1..][1..] == bs[1..][1..];
    } else {
      assert cs[1..] == bs[1..][k - 1 := bs[1..][k]][k := bs[1..][k - 1]];
      WeightedSwaps(bs[1..], k - 1);
    }
  }

  /** Two different neighbours between the preamble and the checksum that have changed
      places are always noticed. */
  lemma ExchangeRejected(f: seq<byte>, k: nat)
    requires Accepts(f) && 2 <= k < |f| - 3 && f[k] != f[k + 1]
    ensures !Accepts(f[k := f[k + 1]][k + 1 := f[k]])
  {
    hide Fletcher, Weighted;
    var g := f[k := f[k + 1]][k + 1 := f[k]];
    var body, changed := f[2..|f| - 2], g[2..|f| - 2];
    assert changed == body[k - 2 := body[k - 1]][k - 1 := body[k - 2]];
    SecondSum(body);
    SecondSum(changed);
    WeightedSwaps(body, k - 2);
    var x: int, y: int := f[k], f[k + 1];
    NotCongruent(Weighted(body), y - x);
  }

  // ----- the parser on values

  /** The parser's variables, every frame handed to processUBX() so far, and whether a
      line was taken by processNEMA(). `msg` is the message buffer and the one byte
      behind it, which belongs to something else. */
  datatype Parser =
    Parser(msg: seq<byte>, lenNmea: nat, lenUbx: nat, endUbx: nat, out: seq<seq<byte>>, hasNmea: bool)

  predicate Proper(p: Parser) {
    |p.msg| == MAX_LENGTH + 1 && p.lenNmea <= MAX_LENGTH && (p.lenUbx > 0 ==> p.endUbx >= 8)
  }

  predicate EndsLine(x: byte) {
    x == 13 || x == 10
  }

  /** A message is cut at the end of the buffer. */
  function Capped(n: nat): nat {
    if n > MAX_LENGTH then MAX_LENGTH else n
  }

  /** A byte inside a UBX message. */
  function FeedUbx(p: Parser, x: byte): (r: Parser)
    requires Proper(p) && p.lenUbx > 0
    ensures Proper(r)
  {
    var msg := if p.lenUbx < MAX_LENGTH then p.msg[p.lenUbx := x] else p.msg;
    var n := p.lenUbx + 1;
    if n >= p.endUbx then
      p.(msg := msg, lenUbx := 0, endUbx := 0, out := p.out + [msg[..Capped(n)]])
    else if n == 6 then
      var end := 8 + msg[4] + TWO8 * msg[5];
      p.(msg := msg, endUbx := end, lenUbx := if end > MAX_LENGTH then 0 else n)
    else if n == 2 && msg[1] != SYNC2 then p.(msg := msg, lenUbx := 0)
    else p.(msg := msg, lenUbx := n)
  }

  /** A byte of an NMEA line. */
  function FeedNmea(p: Parser, x: byte): (r: Parser)
    requires Proper(p)
    ensures Proper(r) && r.lenUbx == p.lenUbx && r.out == p.out
  {
    if p.lenNmea == 0 then p
    else
      var q := if p.lenNmea < MAX_LENGTH then p.(msg := p.msg[p.lenNmea := x], lenNmea := p.lenNmea + 1) else p;
      if !EndsLine(x) then q
      else
        var msg := q.msg[q.lenNmea := 0];
        q.(msg := msg, lenNmea := 0, hasNmea := q.hasNmea || Counts(msg[..q.lenNmea + 1]))
  }

  /** One turn of the loop of runParse(). */
  function Feed(p: Parser, x: byte): (r: Parser)
    requires Proper(p)
    ensures Proper(r)
  {
    if p.lenUbx > 0 then FeedUbx(p, x)
    else
      var q := FeedNmea(p, x);
      if x == DOLLAR then q.(msg := q.msg[0 := x], lenNmea := 1)
      else if x == SYNC1 then q.(lenNmea := 0, msg := q.msg[0 := x], lenUbx := 1, endUbx := 8)
      else q
  }

  function Feeds(p: Parser, bs: seq<byte>): (r: Parser)
    requires Proper(p)
    ensures Proper(r)
  {
    if bs == [] then p else Feed(Feeds(p, bs[..|bs| - 1]), bs[|bs| - 1])
  }

  /** It does not matter how the bytes are divided among calls. */
  lemma {:induction false} FeedsInChunks(p: Parser, a: seq<byte>, b: seq<byte>)
    requires Proper(p)
    ensures Feeds(p, a + b) == Feeds(Feeds(p, a), b)
    decreases |b|
  {
    if b == [] {
      assert a + b == a;
    } else {
      FeedsInChunks(p, a, b[..|b| - 1]);
      assert (a + b)[..|a + b| - 1] == a + b[..|b| - 1];
    }
  }

  lemma NothingFed(p: Parser)
    requires Proper(p)
    ensures Feeds(p, []) == p
  {
  }

  lemma FeedsNext(p: Parser, bs: seq<byte>, x: byte)
    requires Proper(p)
    ensures Feeds(p, bs + [x]) == Feed(Feeds(p, bs), x)
  {
    assert (bs + [x])[..|bs|] == bs;
  }

  // ----- the end of the message buffer

  /** The byte puts the zero behind a line into the byte behind the buffer. */
  predicate Overruns(p: Parser, x: byte) {
    p.lenUbx == 0 && EndsLine(x) && p.lenNmea >= MAX_LENGTH - 1
  }

  /** One of the bytes does. */
  predicate Spills(p: Parser, bs: seq<byte>)
    requires Proper(p)
  {
    exists k :: 0 <= k < |bs| && OverrunsAt(p, bs, k)
  }

  predicate OverrunsAt(p: Parser, bs: seq<byte>, k: nat)
    requires Proper(p) && k < |bs|
  {
    Overruns(Feeds(p, bs[..k]), bs[k])
  }

  /** The byte behind the buffer is overwritten, with zero, exactly then. */
  lemma {:induction false} BehindIs(p: Parser, bs: seq<byte>)
    requires Proper(p)
    ensures Feeds(p, bs).msg[MAX_LENGTH] == if Spills(p, bs) then 0 else p.msg[MAX_LENGTH]
    decreases |bs|
  {
    if bs != [] {
      var n := |bs| - 1;
      BehindIs(p, bs[..n]);
      SpillsNext(p, bs);
      OneOverrun(Feeds(p, bs[..n]), bs[n]);
    }
  }

  lemma SpillsNext(p: Parser, bs: seq<byte>)
    requires Proper(p) && bs != []
    ensures var n := |bs| - 1; Spills(p, bs) <==> Spills(p, bs[..n]) || OverrunsAt(p, bs, n)
  {
    hide OverrunsAt;
    var n := |bs| - 1;
    forall k | 0 <= k < n
      ensures OverrunsAt(p, bs, k) <==> OverrunsAt(p, bs[..n], k)
    {
      OverrunKept(p, bs, n, k);
    }
    if k :| 0 <= k < |bs[..n]| && OverrunsAt(p, bs[..n], k) {
      assert OverrunsAt(p, bs, k);
    }
    if k :| 0 <= k < |bs| && OverrunsAt(p, bs, k) && k != n {
      assert OverrunsAt(p, bs[..n], k);
    }
  }

  lemma OverrunKept(p: Parser, bs: seq<byte>, n: nat, k: nat)
    requires Proper(p) && k < n <= |bs|
    ensures OverrunsAt(p, bs, k) <==> OverrunsAt(p, bs[..n], k)
  {
    assert bs[..n][..k] == bs[..k] && bs[..n][k] == bs[k];
  }

  lemma OneOverrun(p: Parser, x: byte)
    requires Proper(p)
    ensures Feed(p, x).msg[MAX_LENGTH] == if Overruns(p, x) then 0 else p.msg[MAX_LENGTH]
  {
    hide Counts;
  }

  /** Where the NMEA line under way began, or -1. */
  function Since(p: Parser, bs: seq<byte>): int
    requires Proper(p)
    decreases |bs|
  {
    if bs == [] then -1
    else
      var n := |bs| - 1;
      if Feeds(p, bs[..n]).lenUbx > 0 then -1
      else if bs[n] == DOLLAR then n
      else if bs[n] == SYNC1 || EndsLine(bs[n]) then -1
      else Since(p, bs[..n])
  }

  /** So long is that line, up to the buffer's size. */
  lemma {:induction false} LengthSince(p: Parser, bs: seq<byte>)
    requires Proper(p) && p.lenNmea == 0
    ensures -1 <= Since(p, bs) < |bs|
    ensures Feeds(p, bs).lenNmea ==
      if Since(p, bs) < 0 then 0
      else if |bs| - Since(p, bs) < MAX_LENGTH then |bs| - Since(p, bs) else MAX_LENGTH
    decreases |bs|
  {
    if bs != [] {
      hide Counts;
      LengthSince(p, bs[..|bs| - 1]);
    }
  }

  /** A byte inside a line. */
  predicate Inside(x: byte) {
    x != DOLLAR && x != SYNC1 && !EndsLine(x)
  }

  /** A dollar at j, taken outside any UBX message, and a line behind it up to k. */
  predicate LineFrom(p: Parser, bs: seq<byte>, j: int, k: int)
    requires Proper(p) && 0 <= j < k <= |bs|
  {
    bs[j] == DOLLAR && Feeds(p, bs[..j]).lenUbx == 0 && forall i :: j < i < k ==> Inside(bs[i])
  }

  /** Of 254 bytes or more, and k is its end. */
  predicate Overlong(p: Parser, bs: seq<byte>, j: int, k: int)
    requires Proper(p)
  {
    0 <= j < k < |bs| && k - j - 1 >= MAX_LENGTH - 2 && EndsLine(bs[k]) && LineFrom(p, bs, j, k)
  }

  /** The line under way is what stands behind its dollar. */
  lemma {:induction false} SinceIs(p: Parser, bs: seq<byte>, j: nat, k: nat)
    requires Proper(p) && j < k <= |bs|
    ensures Since(p, bs[..k]) == j && Feeds(p, bs[..k]).lenUbx == 0 <==> LineFrom(p, bs, j, k)
    decreases k
  {
    hide Feeds, Since, LineFrom, Inside;
    SinceNext(p, bs, k - 1);
    LineNext(p, bs, j, k - 1);
    if j < k - 1 {
      SinceIs(p, bs, j, k - 1);
    }
  }

  lemma SinceNext(p: Parser, bs: seq<byte>, n: nat)
    requires Proper(p) && n < |bs|
    ensures var q, r := Feeds(p, bs[..n]), Feeds(p, bs[..n + 1]);
      && Since(p, bs[..n]) < n
      && (q.lenUbx > 0 ==> Since(p, bs[..n + 1]) == -1)
      && (q.lenUbx == 0 && bs[n] == DOLLAR ==> Since(p, bs[..n + 1]) == n && r.lenUbx == 0)
      && (q.lenUbx == 0 && (bs[n] == SYNC1 || EndsLine(bs[n])) ==> Since(p, bs[..n + 1]) == -1)
      && (q.lenUbx == 0 && Inside(bs[n]) ==> Since(p, bs[..n + 1]) == Since(p, bs[..n]) && r.lenUbx == 0)
  {
    assert bs[..n + 1][..n] == bs[..n] && bs[..n + 1][n] == bs[n];
    TextByte(Feeds(p, bs[..n]), bs[n]);
    SinceBound(p, bs[..n]);
    hide Feed;
  }

  lemma LineNext(p: Parser, bs: seq<byte>, j: nat, n: nat)
    requires Proper(p) && j <= n < |bs|
    ensures j == n ==> (LineFrom(p, bs, j, n + 1) <==> bs[j] == DOLLAR && Feeds(p, bs[..j]).lenUbx == 0)
    ensures j < n ==> (LineFrom(p, bs, j, n + 1) <==> LineFrom(p, bs, j, n) && Inside(bs[n]))
    ensures Inside(bs[n]) <==> bs[n] != DOLLAR && bs[n] != SYNC1 && !EndsLine(bs[n])
  {
    hide Feeds;
  }

  lemma TextByte(q: Parser, x: byte)
    requires Proper(q)
    ensures q.lenUbx == 0 && x != SYNC1 ==> Feed(q, x).lenUbx == 0
  {
    hide Counts;
  }

  lemma {:induction false} SinceBound(p: Parser, bs: seq<byte>)
    requires Proper(p)
    ensures -1 <= Since(p, bs) < |bs|
    decreases |bs|
  {
    if bs != [] {
      SinceBound(p, bs[..|bs| - 1]);
    }
  }

  /** Some byte overruns the buffer exactly when one of the lines is overlong. */
  lemma SpillsExactly(p: Parser, bs: seq<byte>)
    requires Proper(p) && p.lenNmea == 0
    ensures Spills(p, bs) <==> exists j, k :: Overlong(p, bs, j, k)
  {
    hide OverrunsAt, Overlong;
    if Spills(p, bs) {
      var k :| 0 <= k < |bs| && OverrunsAt(p, bs, k);
      OverrunIs(p, bs, k);
    }
    if j, k :| Overlong(p, bs, j, k) {
      OverlongBound(p, bs, j, k);
      OverrunIs(p, bs, k);
    }
  }

  lemma OverlongBound(p: Parser, bs: seq<byte>, j: int, k: int)
    requires Proper(p) && Overlong(p, bs, j, k)
    ensures 0 <= j < k < |bs|
  {
  }

  lemma OverrunIs(p: Parser, bs: seq<byte>, k: nat)
    requires Proper(p) && p.lenNmea == 0 && k < |bs|
    ensures OverrunsAt(p, bs, k) <==> exists j :: Overlong(p, bs, j, k)
  {
    hide Feeds, Since, LineFrom;
    LengthSince(p, bs[..k]);
    forall j | 0 <= j < k
      ensures Since(p, bs[..k]) == j && Feeds(p, bs[..k]).lenUbx == 0 <==> LineFrom(p, bs, j, k)
    {
      SinceIs(p, bs, j, k);
    }
    if OverrunsAt(p, bs, k) {
      assert Overlong(p, bs, Since(p, bs[..k]), k);
    }
  }

  /** One line by itself, fed to any parser that is in no UBX message: the byte that ends
      it overruns the buffer exactly if 254 bytes or more stand behind the dollar. */
  lemma OverlongExactly(p: Parser, text: seq<byte>, x: byte)
    requires Proper(p) && p.lenUbx == 0 && EndsLine(x) && forall y :: y in text ==> Inside(y)
    ensures Overruns(Feeds(p, [DOLLAR] + text), x) <==> |text| >= MAX_LENGTH - 2
  {
    LineTaken(p, text);
  }

  lemma {:induction false} LineTaken(p: Parser, text: seq<byte>)
    requires Proper(p) && p.lenUbx == 0 && forall y :: y in text ==> Inside(y)
    ensures var q := Feeds(p, [DOLLAR] + text);
      q.lenUbx == 0 && q.lenNmea == if |text| + 1 < MAX_LENGTH then |text| + 1 else MAX_LENGTH
    decreases |text|
  {
    hide Counts;
    var line := [DOLLAR] + text;
    if text == [] {
      assert line[..0] == [] && line[0] == DOLLAR;
    } else {
      var n := |text| - 1;
      LineTaken(p, text[..n]);
      assert line[..|line| - 1] == [DOLLAR] + text[..n] && line[|line| - 1] == text[n];
      assert Inside(text[n]);
    }
  }

  /** A dollar, 254 letters and a line end: the byte behind the buffer is lost. */
  lemma OverlongLine(p: Parser)
    requires Proper(p) && p.lenUbx == 0
    ensures var text: seq<byte> := seq(254, _ => 0x41);
      Spills(p, [DOLLAR] + text + [13]) && Feeds(p, [DOLLAR] + text + [13]).msg[MAX_LENGTH] == 0
  {
    hide Feeds, Overruns;
    var text: seq<byte> := seq(254, _ => 0x41);
    var line := [DOLLAR] + text + [13];
    OverlongExactly(p, text, 13);
    assert line[..255] == [DOLLAR] + text && line[255] == 13;
    assert OverrunsAt(p, line, 255);
    BehindIs(p, line);
  }

  // ----- UBX messages through the parser

  /** The parser has taken the first k bytes of message f. */
  predicate At(q: Parser, f: seq<byte>, k: nat, out: seq<seq<byte>>)
    requires k <= |f|
  {
    && Proper(q) && q.lenUbx == k <= MAX_LENGTH && q.lenNmea == 0 && q.out == out && q.msg[..k] == f[..k]
    && q.endUbx == if k < 6 then 8 else |f|
  }

  predicate WellFormed(f: seq<byte>) {
    8 <= |f| <= MAX_LENGTH && f[0] == SYNC1 && f[1] == SYNC2 && Size(f) == |f| - 8
  }

  lemma OneFurther(q: Parser, f: seq<byte>, k: nat, out: seq<seq<byte>>)
    requires WellFormed(f) && 1 <= k < |f| - 1 && At(q, f, k, out)
    ensures At(Feed(q, f[k]), f, k + 1, out)
  {
    assert q.msg[k := f[k]][..k + 1] == f[..k + 1];
  }

  lemma FirstByte(p: Parser, f: seq<byte>)
    requires Proper(p) && p.lenUbx == 0 && WellFormed(f)
    ensures At(Feed(p, f[0]), f, 1, p.out)
  {
  }

  /** Part of the way through a printed message. */
  lemma {:induction false} Midway(p: Parser, f: seq<byte>, k: nat)
    requires Proper(p) && p.lenUbx == 0 && WellFormed(f)
    requires 1 <= k < |f|
    ensures At(Feeds(p, f[..k]), f, k, p.out)
    decreases k
  {
    hide Feed, WellFormed, At;
    assert f[..k][..k - 1] == f[..k - 1] && f[..k][k - 1] == f[k - 1];
    if k == 1 {
      FirstByte(p, f);
    } else {
      Midway(p, f, k - 1);
      OneFurther(Feeds(p, f[..k - 1]), f, k - 1, p.out);
    }
  }

  /** Round trip: the bytes that sendUBX() prints, fed to a parser that is not in
      a UBX message, make it hand over exactly that frame, once, and leave it
      idle. */
  lemma RoundTrip(p: Parser, cls: byte, id: byte, payload: seq<byte>)
    requires Proper(p) && p.lenUbx == 0 && |payload| <= MAX_LENGTH - 8
    ensures var f := Print(cls, id, payload); var q := Feeds(p, f);
      q.out == p.out + [f] && q.lenUbx == 0 && q.lenNmea == 0
  {
    hide Print, Fletcher, Feed;
    var f := Print(cls, id, payload);
    PrintIsAccepted(cls, id, payload);
    Midway(p, f, |f| - 1);
    LastByte(Feeds(p, f[..|f| - 1]), f);
  }

  /** The last byte of a message. */
  lemma LastByte(q: Parser, f: seq<byte>)
    requires Proper(q) && 8 <= |f| <= MAX_LENGTH
    requires q.lenUbx == |f| - 1 && q.msg[..|f| - 1] == f[..|f| - 1]
    requires q.endUbx == if |f| - 1 < 6 then 8 else |f|
    ensures Feed(q, f[|f| - 1]) == q.(msg := q.msg[|f| - 1 := f[|f| - 1]], lenUbx := 0, endUbx := 0, out := q.out + [f])
  {
    assert q.msg[|f| - 1 := f[|f| - 1]][..|f|] == f;
  }

  /** No frame handed over is longer than the message buffer. */
  lemma {:induction false} FramesFit(p: Parser, bs: seq<byte>)
    requires Proper(p)
    ensures p.out <= Feeds(p, bs).out
    ensures forall i :: |p.out| <= i < |Feeds(p, bs).out| ==> |Feeds(p, bs).out[i]| <= MAX_LENGTH
    decreases |bs|
  {
    if bs != [] {
      FramesFit(p, bs[..|bs| - 1]);
    }
  }

  /** Inside a message, its end is where its length says. */
  predicate Counting(q: Parser)
    requires Proper(q)
  {
    q.lenUbx > 0 ==>
      && q.lenUbx < q.endUbx <= MAX_LENGTH
      && q.endUbx == if q.lenUbx < 6 then 8 else 8 + q.msg[4] + TWO8 * q.msg[5]
  }

  /** Of the size that it states. */
  predicate Whole(f: seq<byte>) {
    |f| >= 8 && |f| == 8 + Size(f)
  }

  /** Inside a message, its first bytes are the last ones that came. */
  predicate Within(q: Parser, bs: seq<byte>) {
    && Proper(q) && Counting(q)
    && (q.lenUbx > 0 ==>
      && q.lenUbx <= |bs| && q.msg[..q.lenUbx] == bs[|bs| - q.lenUbx..] && q.msg[0] == SYNC1
      && (q.lenUbx > 1 ==> q.msg[1] == SYNC2))
  }

  /** A whole message that stands in the stream. */
  ghost predicate Stands(f: seq<byte>, bs: seq<byte>) {
    WellFormed(f) && exists i :: SliceAt(f, bs, i)
  }

  predicate SliceAt(f: seq<byte>, bs: seq<byte>, i: int) {
    0 <= i <= |bs| - |f| && f == bs[i..i + |f|]
  }

  lemma StandsStill(f: seq<byte>, bs: seq<byte>, x: byte)
    requires Stands(f, bs)
    ensures Stands(f, bs + [x])
  {
    hide WellFormed;
    var i :| SliceAt(f, bs, i);
    assert SliceAt(f, bs + [x], i);
  }

  lemma WithinNext(q: Parser, bs: seq<byte>, x: byte)
    requires Within(q, bs)
    ensures Within(Feed(q, x), bs + [x])
    ensures Feed(q, x).out == q.out || exists f :: Feed(q, x).out == q.out + [f] && Stands(f, bs + [x])
  {
    hide Counts;
    var r := Feed(q, x);
    if q.lenUbx > 0 {
      var n, all := q.lenUbx + 1, bs + [x];
      var msg := q.msg[q.lenUbx := x];
      assert msg[..n] == bs[|bs| - q.lenUbx..] + [x] == all[|all| - n..];
      if n >= q.endUbx {
        assert r.out == q.out + [msg[..n]];
        assert SliceAt(msg[..n], all, |all| - n);
        assert WellFormed(msg[..n]);
      }
    } else if r.lenUbx > 0 {
      assert r.msg[..1] == [x] == (bs + [x])[|bs|..];
    }
  }

  /** Whatever is received, each frame handed over stands in the stream as it is, with the
      preamble in front and of the size that it states. */
  lemma {:induction false} FramesStand(p: Parser, bs: seq<byte>)
    requires Proper(p) && p.lenUbx == 0
    ensures Within(Feeds(p, bs), bs)
    ensures p.out <= Feeds(p, bs).out
    ensures forall f :: f in Feeds(p, bs).out[|p.out|..] ==> Stands(f, bs)
    decreases |bs|
  {
    hide Feed, Within, Stands;
    if bs == [] {
      NothingWithin(p);
    } else {
      var n := |bs| - 1;
      FramesStand(p, bs[..n]);
      var q, r := Feeds(p, bs[..n]), Feeds(p, bs);
      WithinNext(q, bs[..n], bs[n]);
      assert bs[..n] + [bs[n]] == bs;
      forall f | f in r.out[|p.out|..]
        ensures Stands(f, bs)
      {
        if f in q.out[|p.out|..] {
          StandsStill(f, bs[..n], bs[n]);
        } else {
          assert r.out != q.out;
          var g :| r.out == q.out + [g] && Stands(g, bs);
          assert r.out[|p.out|..] == q.out[|p.out|..] + [g];
        }
      }
    }
  }

  lemma NothingWithin(p: Parser)
    requires Proper(p) && p.lenUbx == 0
    ensures Within(p, []) && p.out[|p.out|..] == []
  {
  }

  /** The round trip holds exactly for messages that fit the buffer. */
  lemma RoundTripExactly(p: Parser, cls: byte, id: byte, payload: seq<byte>)
    requires Proper(p) && p.lenUbx == 0 && |payload| < TWO16
    ensures Feeds(p, Print(cls, id, payload)).out == p.out + [Print(cls, id, payload)]
      <==> |payload| <= MAX_LENGTH - 8
  {
    hide Feeds, Print;
    var f := Print(cls, id, payload);
    PrintIsAccepted(cls, id, payload);
    if |payload| <= MAX_LENGTH - 8 {
      RoundTrip(p, cls, id, payload);
    } else {
      FramesFit(p, f);
      var out := Feeds(p, f).out;
      assert |out| > |p.out| ==> |out[|p.out|]| <= MAX_LENGTH < |f|;
    }
  }

  /** Any number of messages, one after the other. */
  lemma {:induction false} StreamRoundTrip(p: Parser, frames: seq<seq<byte>>, parts: seq<(byte, byte, seq<byte>)>)
    requires Proper(p) && p.lenUbx == 0 && |frames| == |parts|
    requires forall i :: 0 <= i < |parts| ==>
      |parts[i].2| <= MAX_LENGTH - 8 && frames[i] == Print(parts[i].0, parts[i].1, parts[i].2)
    ensures Feeds(p, Flatten(frames)).out == p.out + frames && Feeds(p, Flatten(frames)).lenUbx == 0
    decreases |frames|
  {
    hide Print, Feed;
    if frames != [] {
      var n := |frames| - 1;
      StreamRoundTrip(p, frames[..n], parts[..n]);
      FeedsInChunks(p, Flatten(frames[..n]), frames[n]);
      RoundTrip(Feeds(p, Flatten(frames[..n])), parts[n].0, parts[n].1, parts[n].2);
      assert p.out + frames[..n] + [frames[n]] == p.out + frames;
    } else {
      assert p.out + frames == p.out;
    }
  }

  function Flatten(fs: seq<seq<byte>>): seq<byte> {
    if fs == [] then [] else Flatten(fs[..|fs| - 1]) + fs[|fs| - 1]
  }
}
