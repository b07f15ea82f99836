/** The rings between the UART and gps.cpp, which are filled without a test for room, and
    the order in which the parser takes bytes that keep arriving. */
module GpsRing {
  import opened Words
  import opened Ubx

  const GPS_RING_SIZE := 256

  // ----- the rings

  /** incrRing() */
  function Incr(ptr: int): int {
    (ptr + 1) % GPS_RING_SIZE
  }

  predicate Index(i: int) {
    0 <= i < GPS_RING_SIZE
  }

  function Fill(tail: int, head: int): int {
    if head >= tail then head - tail else head - tail + GPS_RING_SIZE
  }

  /** The place that is i behind the tail. */
  function Place(tail: int, i: int): int {
    if tail + i < GPS_RING_SIZE then tail + i else tail + i - GPS_RING_SIZE
  }

  /** The bytes of a ring from its tail to its head. */
  function Queue(buf: seq<byte>, tail: int, head: int): (q: seq<byte>)
    requires |buf| == GPS_RING_SIZE && Index(tail) && Index(head)
    ensures |q| == Fill(tail, head)
  {
    seq(Fill(tail, head), i requires 0 <= i < Fill(tail, head) => buf[Place(tail, i)])
  }

  /** What a ring keeps of the bytes put into it without a test for room: each time it
      fills up it reads as empty. */
  function Kept(s: seq<byte>): (k: seq<byte>)
    ensures |k| < GPS_RING_SIZE
  {
    s[|s| - |s| % GPS_RING_SIZE..]
  }

  /** Nothing is lost as long as there is room, and only then. */
  lemma KeptExactly(s: seq<byte>)
    ensures Kept(s) == s <==> |s| < GPS_RING_SIZE
  {
  }

  lemma KeptNext(s: seq<byte>, x: byte)
    ensures Kept(s + [x]) == if |Kept(s)| == GPS_RING_SIZE - 1 then [] else Kept(s) + [x]
  {
  }

  lemma QueuePush(buf: seq<byte>, tail: int, head: int, x: byte)
    requires |buf| == GPS_RING_SIZE && Index(tail) && Index(head)
    ensures Queue(buf[head := x], tail, Incr(head)) ==
      if Fill(tail, head) == GPS_RING_SIZE - 1 then [] else Queue(buf, tail, head) + [x]
  {
    var n := Fill(tail, head);
    assert Place(tail, n) == head;
    assert Fill(tail, Incr(head)) == if n + 1 == GPS_RING_SIZE then 0 else n + 1;
    assert forall i :: 0 <= i < n ==> Place(tail, i) != head;
  }

  /** One byte more, with room or without. */
  lemma QueuePut(buf: seq<byte>, tail: int, head: int, x: byte, text: seq<byte>)
    requires |buf| == GPS_RING_SIZE && Index(tail) && Index(head) && Queue(buf, tail, head) == Kept(text)
    ensures Index(Incr(head)) && Queue(buf[head := x], tail, Incr(head)) == Kept(text + [x])
  {
    QueuePush(buf, tail, head, x);
    KeptNext(text, x);
  }

  lemma QueuePop(buf: seq<byte>, tail: int, head: int)
    requires |buf| == GPS_RING_SIZE && Index(tail) && Index(head) && tail != head
    ensures var q := Queue(buf, tail, head);
      q != [] && q[0] == buf[tail] && Queue(buf, Incr(tail), head) == q[1..]
  {
    assert Fill(Incr(tail), head) == Fill(tail, head) - 1;
    assert forall i :: 0 <= i < Fill(tail, head) - 1 ==> Place(Incr(tail), i) == Place(tail, i + 1);
  }

  lemma QueueBounds(buf: seq<byte>, tail: int, head: int)
    requires |buf| == GPS_RING_SIZE && Index(tail) && Index(head)
    ensures tail == head <==> Queue(buf, tail, head) == []
    ensures |Queue(buf, tail, head)| < GPS_RING_SIZE
  {
  }

  // ----- a ring that is filled and emptied at once

  /** The last place before n that shares a slot with place i. */
  function Latest(n: int, i: int): int {
    i + GPS_RING_SIZE * ((n - 1 - i) / GPS_RING_SIZE)
  }

  lemma LatestIs(n: int, i: int)
    requires 0 <= i < n
    ensures i <= Latest(n, i) < n <= Latest(n, i) + GPS_RING_SIZE
    ensures Latest(n + 1, i) == if (n - i) % GPS_RING_SIZE == 0 then n else Latest(n, i)
    ensures i > 0 ==> Latest(n - 1, i - 1) == Latest(n, i) - 1
  {
  }

  /** The slots from the tail on hold the bytes not taken yet, later ones over earlier. */
  predicate Wraps(buf: seq<byte>, tail: int, rest: seq<byte>) {
    && |buf| == GPS_RING_SIZE && Index(tail)
    && forall i :: 0 <= i < |rest| && i < GPS_RING_SIZE ==> HoldsLatest(buf, tail, rest, i)
  }

  predicate HoldsLatest(buf: seq<byte>, tail: int, rest: seq<byte>, i: int)
    requires |buf| == GPS_RING_SIZE && Index(tail) && 0 <= i < |rest| && i < GPS_RING_SIZE
  {
    LatestIs(|rest|, i);
    buf[Place(tail, i)] == rest[Latest(|rest|, i)]
  }

  /** Where the next byte goes. */
  function Head(tail: int, n: nat): int {
    Place(tail, n % GPS_RING_SIZE)
  }

  lemma HeadNext(tail: int, n: nat)
    requires Index(tail)
    ensures Index(Head(tail, n)) && Incr(Head(tail, n)) == Head(tail, n + 1)
    ensures n > 0 ==> Head(Incr(tail), n - 1) == Head(tail, n)
    ensures forall i :: 0 <= i < GPS_RING_SIZE && Place(tail, i) == Head(tail, n) ==> i == n % GPS_RING_SIZE
  {
  }

  lemma WrapsPut(buf: seq<byte>, tail: int, rest: seq<byte>, x: byte)
    requires Wraps(buf, tail, rest)
    ensures Index(Head(tail, |rest|)) && Wraps(buf[Head(tail, |rest|) := x], tail, rest + [x])
  {
    var n, h := |rest|, Head(tail, |rest|);
    HeadNext(tail, n);
    hide Latest, Head, Place;
    var after, more := buf[h := x], rest + [x];
    forall i | 0 <= i <= n && i < GPS_RING_SIZE
      ensures HoldsLatest(after, tail, more, i)
    {
      PutAt(buf, tail, rest, x, i);
    }
  }

  lemma PutAt(buf: seq<byte>, tail: int, rest: seq<byte>, x: byte, i: int)
    requires Wraps(buf, tail, rest) && 0 <= i <= |rest| && i < GPS_RING_SIZE
    ensures Index(Head(tail, |rest|)) && HoldsLatest(buf[Head(tail, |rest|) := x], tail, rest + [x], i)
  {
    var n := |rest|;
    HeadNext(tail, n);
    SameSlot(n, i);
    LatestIs(n + 1, i);
    hide Latest, Head;
    if i < n {
      LatestIs(n, i);
      assert HoldsLatest(buf, tail, rest, i);
    }
    assert i == n % GPS_RING_SIZE ==> Place(tail, i) == Head(tail, n) by {
      HeadIs(tail, n);
    }
  }

  lemma HeadIs(tail: int, n: nat)
    ensures Head(tail, n) == Place(tail, n % GPS_RING_SIZE)
  {
  }

  lemma SameSlot(n: int, i: int)
    requires 0 <= i <= n && i < GPS_RING_SIZE
    ensures (n - i) % GPS_RING_SIZE == 0 <==> i == n % GPS_RING_SIZE
    ensures i == n ==> Latest(n + 1, i) == n
  {
  }

  lemma WrapsTake(buf: seq<byte>, tail: int, rest: seq<byte>)
    requires Wraps(buf, tail, rest) && rest != []
    ensures Wraps(buf, Incr(tail), rest[1..])
    ensures 0 <= Latest(|rest|, 0) < |rest| && buf[tail] == rest[Latest(|rest|, 0)]
  {
    LatestIs(|rest|, 0);
    assert HoldsLatest(buf, tail, rest, 0);
    forall i | 0 <= i < |rest| - 1 && i < GPS_RING_SIZE
      ensures HoldsLatest(buf, Incr(tail), rest[1..], i)
    {
      TakeAt(buf, tail, rest, i);
    }
  }

  lemma TakeAt(buf: seq<byte>, tail: int, rest: seq<byte>, i: int)
    requires Wraps(buf, tail, rest) && 0 <= i < |rest| - 1 && i < GPS_RING_SIZE
    ensures HoldsLatest(buf, Incr(tail), rest[1..], i)
  {
    var n := |rest|;
    LatestIs(n, i + 1);
    LatestIs(n - 1, i);
    LatestIs(n, 0);
    LatestTurn(n);
    hide Latest;
    if i < GPS_RING_SIZE - 1 {
      assert HoldsLatest(buf, tail, rest, i + 1);
    } else {
      assert HoldsLatest(buf, tail, rest, 0);
    }
    assert Place(Incr(tail), i) == Place(tail, if i < GPS_RING_SIZE - 1 then i + 1 else 0);
    hide Place, Incr;
  }

  lemma LatestTurn(n: int)
    ensures Latest(n, GPS_RING_SIZE) == Latest(n, 0)
  {
  }

  /** It reads as what is kept of them. */
  lemma WrapsQueue(buf: seq<byte>, tail: int, rest: seq<byte>)
    requires Wraps(buf, tail, rest)
    ensures Index(Head(tail, |rest|)) && Queue(buf, tail, Head(tail, |rest|)) == Kept(rest)
  {
    var n := |rest| % GPS_RING_SIZE;
    HeadNext(tail, |rest|);
    assert Fill(tail, Head(tail, |rest|)) == n;
    forall i | 0 <= i < n
      ensures Queue(buf, tail, Head(tail, |rest|))[i] == Kept(rest)[i]
    {
      assert HoldsLatest(buf, tail, rest, i);
      LatestIs(|rest|, i);
      LatestKept(|rest|, i);
    }
  }

  lemma LatestKept(n: int, i: int)
    requires 0 <= i < n % GPS_RING_SIZE
    ensures Latest(n, i) == n - n % GPS_RING_SIZE + i
  {
  }

  lemma QueueWraps(buf: seq<byte>, tail: int, head: int)
    requires |buf| == GPS_RING_SIZE && Index(tail) && Index(head)
    ensures Wraps(buf, tail, Queue(buf, tail, head)) && head == Head(tail, |Queue(buf, tail, head)|)
  {
    var q := Queue(buf, tail, head);
    forall i | 0 <= i < |q|
      ensures HoldsLatest(buf, tail, q, i)
    {
      LatestIs(|q|, i);
      assert Latest(|q|, i) == i;
    }
  }

  /** Each byte taken is the one at its place, or a later one in the same slot. */
  ghost predicate Echoes(taken: seq<byte>, text: seq<byte>) {
    |taken| <= |text| && forall i :: 0 <= i < |taken| ==> EchoAt(taken[i], text, i)
  }

  ghost predicate EchoAt(x: byte, text: seq<byte>, i: nat) {
    exists m: nat :: Turns(x, text, i, m)
  }

  /** m turns of the ring later. */
  predicate Turns(x: byte, text: seq<byte>, i: nat, m: nat) {
    i + GPS_RING_SIZE * m < |text| && x == text[i + GPS_RING_SIZE * m]
  }

  /** Without overflow that is the bytes in order. */
  lemma EchoesFit(taken: seq<byte>, text: seq<byte>)
    requires Echoes(taken, text) && |text| <= GPS_RING_SIZE
    ensures taken == text[..|taken|]
  {
    forall i | 0 <= i < |taken|
      ensures taken[i] == text[i]
    {
      assert EchoAt(taken[i], text, i);
      var m: nat :| Turns(taken[i], text, i, m);
      assert m == 0;
    }
  }

  lemma EchoesMore(taken: seq<byte>, text: seq<byte>, x: byte)
    requires Echoes(taken, text)
    ensures Echoes(taken, text + [x])
  {
    forall i | 0 <= i < |taken|
      ensures EchoAt(taken[i], text + [x], i)
    {
      assert EchoAt(taken[i], text, i);
      var m: nat :| Turns(taken[i], text, i, m);
      assert Turns(taken[i], text + [x], i, m);
    }
  }

  lemma EchoesTaken(taken: seq<byte>, text: seq<byte>, x: byte)
    requires Echoes(taken, text) && |taken| < |text|
    requires var n := |text| - |taken|; 0 <= Latest(n, 0) < n && x == text[|taken|..][Latest(n, 0)]
    ensures Echoes(taken + [x], text)
  {
    var t, n := |taken|, |text| - |taken|;
    var m: nat := (n - 1) / GPS_RING_SIZE;
    assert Latest(n, 0) == GPS_RING_SIZE * m;
    assert Turns(x, text, t, m);
    assert EchoAt(x, text, t);
    forall i | 0 <= i < t
      ensures EchoAt((taken + [x])[i], text, i)
    {
      assert EchoAt(taken[i], text, i);
    }
  }

  /** While bytes are put into a ring: `text` is what was in it, q bytes, and what was put
      behind since; of the former `sent` has been taken; pub is the head that the taking
      stops at. */
  ghost predicate Loading(buf: seq<byte>, tail: int, head: int, pub: int, text: seq<byte>, sent: seq<byte>, q: nat) {
    && |sent| <= q <= |text| && q < GPS_RING_SIZE
    && Wraps(buf, tail, text[|sent|..]) && Echoes(sent, text)
    && head == Head(tail, |text| - |sent|) && pub == Head(tail, q - |sent|)
  }

  lemma LoadingTake(buf: seq<byte>, tail: int, head: int, pub: int, text: seq<byte>, sent: seq<byte>, q: nat)
    requires Loading(buf, tail, head, pub, text, sent, q) && tail != pub
    ensures |buf| == GPS_RING_SIZE && Index(tail)
    ensures Loading(buf, Incr(tail), head, pub, text, sent + [buf[tail]], q)
  {
    hide Wraps, Latest, Echoes;
    var t := |sent|;
    WrapsIndex(buf, tail, text[t..]);
    HeadStart(tail);
    assert t < q;
    WrapsTake(buf, tail, text[t..]);
    EchoesTaken(sent, text, buf[tail]);
    hide Head, Incr;
    HeadNext(tail, |text| - t);
    HeadNext(tail, q - t);
    assert text[t..][1..] == text[t + 1..];
  }

  lemma LoadingPut(buf: seq<byte>, tail: int, head: int, pub: int, text: seq<byte>, sent: seq<byte>, q: nat, x: byte)
    requires Loading(buf, tail, head, pub, text, sent, q)
    ensures |buf| == GPS_RING_SIZE && Index(head)
    ensures Loading(buf[head := x], tail, Incr(head), pub, text + [x], sent, q)
  {
    hide Wraps, Latest, Echoes, Head, Incr;
    var t := |sent|;
    WrapsIndex(buf, tail, text[t..]);
    WrapsPut(buf, tail, text[t..], x);
    HeadNext(tail, |text| - t);
    EchoesMore(sent, text, x);
    assert text[t..] + [x] == (text + [x])[t..];
  }

  lemma WrapsIndex(buf: seq<byte>, tail: int, rest: seq<byte>)
    requires Wraps(buf, tail, rest)
    ensures |buf| == GPS_RING_SIZE && Index(tail)
  {
  }

  lemma HeadStart(tail: int)
    requires Index(tail)
    ensures Head(tail, 0) == tail
  {
  }

  // ----- bytes that arrive while the parser runs

  /** What is queued at the test of the loop, after what arrived before it. */
  function AtTest(q: seq<byte>, bursts: seq<seq<byte>>): seq<byte> {
    if bursts == [] then q else Kept(q + bursts[0])
  }

  function Later(bursts: seq<seq<byte>>): seq<seq<byte>> {
    if bursts == [] then [] else bursts[1..]
  }

  /** The bytes that the parser takes. */
  function Drained(q: seq<byte>, bursts: seq<seq<byte>>): seq<byte>
    decreases |bursts|, |q|
  {
    var now := AtTest(q, bursts);
    if now == [] then [] else [now[0]] + Drained(now[1..], Later(bursts))
  }

  /** The bursts that have come by its end. */
  function Used(q: seq<byte>, bursts: seq<seq<byte>>): (n: nat)
    ensures n <= |bursts| && (bursts != [] ==> n > 0)
    decreases |bursts|, |q|
  {
    var now := AtTest(q, bursts);
    (if bursts == [] then 0 else 1) + if now == [] then 0 else Used(now[1..], Later(bursts))
  }

  lemma DrainedTurn(q: seq<byte>, bursts: seq<seq<byte>>)
    ensures var now := AtTest(q, bursts);
      && Drained(q, bursts) == (if now == [] then [] else [now[0]] + Drained(now[1..], Later(bursts)))
      && Used(q, bursts) ==
         (if bursts == [] then 0 else 1) + if now == [] then 0 else Used(now[1..], Later(bursts))
  {
  }

  lemma TurnStarts(q: seq<byte>, bursts: seq<seq<byte>>, turn: nat)
    requires turn <= |bursts|
    ensures bursts[turn..] == [] <==> turn == |bursts|
    ensures AtTest(q, bursts[turn..]) == if turn < |bursts| then Kept(q + bursts[turn]) else q
    ensures Later(bursts[turn..]) == bursts[if turn < |bursts| then turn + 1 else turn..]
  {
    hide Kept;
    assert turn < |bursts| ==> bursts[turn..][0] == bursts[turn] && bursts[turn..][1..] == bursts[turn + 1..];
  }

  lemma OneByOne(a: seq<byte>, x: byte, b: seq<byte>)
    ensures a + ([x] + b) == a + [x] + b
  {
  }

  /** One turn of the loop, after `eaten`, with this many bursts behind it. */
  lemma TurnIs(q: seq<byte>, bursts: seq<seq<byte>>, turn: nat, eaten: seq<byte>)
    requires turn <= |bursts|
    ensures var now := if turn < |bursts| then Kept(q + bursts[turn]) else q;
      var next := if turn < |bursts| then turn + 1 else turn;
      eaten + Drained(q, bursts[turn..]) ==
        if now == [] then eaten else eaten + [now[0]] + Drained(now[1..], bursts[next..])
    ensures var now := if turn < |bursts| then Kept(q + bursts[turn]) else q;
      var next := if turn < |bursts| then turn + 1 else turn;
      turn + Used(q, bursts[turn..]) == if now == [] then next else next + Used(now[1..], bursts[next..])
  {
    hide *;
    TurnStarts(q, bursts, turn);
    DrainedTurn(q, bursts[turn..]);
    var now, rest := AtTest(q, bursts[turn..]), Later(bursts[turn..]);
    if now == [] {
      assert eaten + [] == eaten;
    } else {
      OneByOne(eaten, now[0], Drained(now[1..], rest));
    }
  }

  lemma DrainedAlong(q: seq<byte>, bursts: seq<seq<byte>>, none: seq<byte>)
    requires none == []
    ensures none + Drained(q, bursts[0..]) == Drained(q, bursts)
  {
    assert bursts[0..] == bursts;
  }

  /** The ring has room for each burst when it comes. */
  predicate HasRoom(q: seq<byte>, bursts: seq<seq<byte>>)
    decreases |bursts|
  {
    bursts != [] ==>
      |q + bursts[0]| < GPS_RING_SIZE && (q + bursts[0] != [] ==> HasRoom((q + bursts[0])[1..], bursts[1..]))
  }

  /** With room, the parser takes everything that came, in order, up to the burst at
      which it found the ring empty. */
  lemma {:induction false} NothingLost(q: seq<byte>, bursts: seq<seq<byte>>) returns (n: nat)
    requires |q| < GPS_RING_SIZE && HasRoom(q, bursts)
    ensures n <= |bursts| && n == Used(q, bursts) && Drained(q, bursts) == q + Flatten(bursts[..n])
    decreases |bursts|
  {
    hide Kept, Drained, Used, Flatten;
    NoneYet(bursts);
    if bursts == [] {
      n := 0;
      DrainedAtRest(q);
    } else {
      var all := q + bursts[0];
      KeptExactly(all);
      DrainedTurn(q, bursts);
      var m := 0;
      if all != [] {
        m := NothingLost(all[1..], bursts[1..]);
        Regroup(q, bursts[0], Flatten(bursts[1..][..m]));
      } else {
        NoneYet(bursts[1..]);
      }
      n := m + 1;
      assert bursts[..n] == [bursts[0]] + bursts[1..][..m];
      FlattenFirst(bursts[0], bursts[1..][..m]);
    }
  }

  /** There is room if all that comes fits. */
  lemma {:induction false} FitsHasRoom(q: seq<byte>, bursts: seq<seq<byte>>)
    requires |q| + |Flatten(bursts)| < GPS_RING_SIZE
    ensures HasRoom(q, bursts)
    decreases |bursts|
  {
    if bursts != [] {
      assert bursts == [bursts[0]] + bursts[1..];
      FlattenFirst(bursts[0], bursts[1..]);
      if q + bursts[0] != [] {
        FitsHasRoom((q + bursts[0])[1..], bursts[1..]);
      }
    }
  }

  lemma NoneYet(bursts: seq<seq<byte>>)
    ensures Flatten(bursts[..0]) == []
  {
  }

  lemma Regroup(q: seq<byte>, b: seq<byte>, rest: seq<byte>)
    requires q + b != []
    ensures [(q + b)[0]] + ((q + b)[1..] + rest) == q + (b + rest)
  {
  }

  lemma {:induction false} DrainedAtRest(q: seq<byte>)
    ensures Drained(q, []) == q && Used(q, []) == 0
    decreases |q|
  {
    if q != [] {
      DrainedAtRest(q[1..]);
    }
  }

  lemma {:induction false} FlattenFirst(b: seq<byte>, bs: seq<seq<byte>>)
    ensures Flatten([b] + bs) == b + Flatten(bs)
    decreases |bs|
  {
    hide Flatten;
    NoneYet(bs);
    if bs == [] {
      FlattenNext([], b);
      assert [b] + bs == [] + [b] && bs[..0] == bs;
      assert Flatten([]) + b == b + Flatten(bs);
    } else {
      var n := |bs| - 1;
      FlattenFirst(b, bs[..n]);
      FlattenNext([b] + bs[..n], bs[n]);
      FlattenNext(bs[..n], bs[n]);
      assert bs[..n] + [bs[n]] == bs;
      assert [b] + bs == [b] + bs[..n] + [bs[n]];
      assert b + Flatten(bs[..n]) + bs[n] == b + Flatten(bs);
    }
  }

  lemma FlattenNext(bs: seq<seq<byte>>, b: seq<byte>)
    ensures Flatten(bs + [b]) == Flatten(bs) + b
  {
    assert (bs + [b])[..|bs|] == bs;
  }

  lemma {:induction false} FlattenSplit(bs: seq<seq<byte>>, n: nat)
    requires n <= |bs|
    ensures Flatten(bs) == Flatten(bs[..n]) + Flatten(bs[n..])
    decreases |bs|
  {
    if n == |bs| {
      assert bs[..n] == bs && bs[n..] == [];
      assert Flatten(bs) + [] == Flatten(bs);
    } else {
      hide Flatten;
      var m := |bs| - 1;
      var front, back, last := bs[..n], bs[n..m], bs[m];
      FlattenSplit(bs[..m], n);
      assert bs[..m][..n] == front && bs[..m][n..] == back;
      assert back + [last] == bs[n..] && bs[..m] + [last] == bs;
      FlattenNext(back, last);
      FlattenNext(bs[..m], last);
      assert Flatten(front) + Flatten(back) + last == Flatten(front) + (Flatten(back) + last);
    }
  }

  /** As long as no more than one byte comes per turn there is room. */
  lemma {:induction false} KeepsUp(q: seq<byte>, bursts: seq<seq<byte>>)
    requires |q| < GPS_RING_SIZE - 1 && forall b :: b in bursts ==> |b| <= 1
    ensures HasRoom(q, bursts)
    decreases |bursts|
  {
    if bursts != [] && q + bursts[0] != [] {
      KeepsUp((q + bursts[0])[1..], bursts[1..]);
    }
  }

  lemma TakesAll(q: seq<byte>, bursts: seq<seq<byte>>) returns (n: nat)
    requires |q| + |Flatten(bursts)| < GPS_RING_SIZE
    ensures n == Used(q, bursts) && Drained(q, bursts) + Flatten(bursts[n..]) == q + Flatten(bursts)
    ensures |Flatten(bursts[n..])| < GPS_RING_SIZE
  {
    hide Drained, Used, Flatten, HasRoom;
    FitsHasRoom(q, bursts);
    n := NothingLost(q, bursts);
    FlattenSplit(bursts, n);
  }
}
