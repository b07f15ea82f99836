/** The Ethernet transmit ring of net.cpp, shared with a DMA engine that may run
    between any two statements. Positions on the ring are counted from the start
    of the run; position j lives in slot j modulo the ring size. */
module TxRing {
  import opened Words

  const MTU := 1518
  const SEGMENT_SIZE := 128
  const TX_RING_SIZE := 128

  /** The bits of TDES0 that the driver and the DMA use, the segment size of
      TDES1 and the transmit time stamp of the DMA. */
  datatype Desc = Desc(own: bool, ic: bool, ls: bool, fs: bool, ttse: bool, ter: bool, size: nat, stamp: int)

  /** A completion callback; 0 is the null pointer. */
  datatype Callback = Callback(call: int, reference: int)

  datatype Frame = Frame(data: seq<byte>, back: Callback)

  /** A frame as transmit() takes it. */
  predicate Sendable(data: seq<byte>) {
    |data| <= MTU
  }

  datatype Segment = Segment(data: seq<byte>, first: bool, last: bool)

  /** A segment as the DMA found it, when it was sent, and whether its descriptor asked for
      a time stamp and for an interrupt. */
  datatype Sent = Sent(seg: Segment, stamp: int, timed: bool, interrupts: bool)

  /** A callback as it was invoked. */
  datatype Completion = Completion(call: int, reference: int, data: seq<byte>, stamp: int)

  function Min(a: int, b: int): int {
    if a < b then a else b
  }

  /** The segments that transmit() asks room for. */
  function Asked(data: seq<byte>): nat {
    (|data| + SEGMENT_SIZE - 1) / SEGMENT_SIZE
  }

  /** The segments that it writes: one even for a frame of no bytes. */
  function Count(data: seq<byte>): (n: nat)
    ensures n > 0
  {
    if data == [] then 1 else Asked(data)
  }

  /** Segment k of a frame. */
  function Piece(data: seq<byte>, k: nat): Segment
    requires k < Count(data)
  {
    Segment(data[SEGMENT_SIZE * k..Min(|data|, SEGMENT_SIZE * (k + 1))], k == 0, k == Count(data) - 1)
  }

  function Pieces(data: seq<byte>): (s: seq<Segment>)
    ensures |s| == Count(data)
  {
    seq(Count(data), k requires 0 <= k < Count(data) => Piece(data, k))
  }

  /** All frames in order, cut into segments. */
  function Cut(frames: seq<Frame>): seq<Segment> {
    if frames == [] then [] else Cut(frames[..|frames| - 1]) + Pieces(frames[|frames| - 1].data)
  }

  function Slot(j: int): int {
    j % TX_RING_SIZE
  }

  /** The callbacks of a list of frames, each with its frame's own bytes and the
      time at which its last segment was sent. */
  function Completions(frames: seq<Frame>, sent: seq<Sent>): seq<Completion>
    requires |Cut(frames)| <= |sent|
    requires forall f :: f in frames ==> Sendable(f.data)
    decreases |frames|
  {
    if frames == [] then []
    else
      var f := frames[|frames| - 1];
      assert f in frames && Sendable(f.data);
      assert |Cut(frames)| >= Count(f.data);
      Completions(frames[..|frames| - 1], sent) +
      (if f.back.call == 0 then []
       else [Completion(f.back.call, f.back.reference, f.data, sent[|Cut(frames)| - 1].stamp)])
  }

  lemma SlotInjective()
    ensures forall i: int, j: int {:trigger Slot(i), Slot(j)} ::
      -TX_RING_SIZE < i - j < TX_RING_SIZE && Slot(i) == Slot(j) ==> i == j
  {
  }

  /** incrTx(), and its reverse in transmit(). */
  lemma SlotNext(j: int)
    ensures 0 <= Slot(j) < TX_RING_SIZE
    ensures Slot(j + 1) == (Slot(j) + 1) % TX_RING_SIZE
    ensures Slot(j - 1) == (Slot(j) - 1) % TX_RING_SIZE
    ensures Slot(j + 1) == if Slot(j) == TX_RING_SIZE - 1 then 0 else Slot(j) + 1
  {
  }

  /** The free slots but one, from the wrapped indices. */
  lemma RoomLeft(tail: nat, head: nat)
    requires tail <= head <= tail + TX_RING_SIZE - 1
    ensures (Slot(tail) - Slot(head) - 1) % TX_RING_SIZE == TX_RING_SIZE - 1 - (head - tail)
  {
    var r, g := Slot(tail), head - tail;
    assert head == TX_RING_SIZE * (tail / TX_RING_SIZE) + (r + g);
    assert Slot(head) == if r + g < TX_RING_SIZE then r + g else r + g - TX_RING_SIZE;
  }

  lemma {:induction false} CutOne(frames: seq<Frame>, k: nat)
    requires k < |frames|
    ensures var a, n := |Cut(frames[..k])|, |Pieces(frames[k].data)|;
      a + n <= |Cut(frames)| && Cut(frames)[a..a + n] == Pieces(frames[k].data)
      && |Cut(frames[..k + 1])| == a + n
    decreases |frames|
  {
    var init := frames[..|frames| - 1];
    if k == |init| {
      assert frames[..k + 1] == frames;
    } else {
      CutOne(init, k);
      assert init[..k] == frames[..k] && init[..k + 1] == frames[..k + 1];
    }
  }

  lemma CutAppend(frames: seq<Frame>, f: Frame)
    ensures Cut(frames + [f]) == Cut(frames) + Pieces(f.data)
  {
    assert (frames + [f])[..|frames|] == frames;
  }

  lemma {:induction false} CompletionsKept(frames: seq<Frame>, sent: seq<Sent>, more: seq<Sent>)
    requires forall f :: f in frames ==> Sendable(f.data)
    requires |Cut(frames)| <= |sent|
    ensures Completions(frames, sent + more) == Completions(frames, sent)
    decreases |frames|
  {
    if frames != [] {
      assert frames[|frames| - 1] in frames;
      CompletionsKept(frames[..|frames| - 1], sent, more);
    }
  }

  // ----- the ring as values: descriptors and buffers, slot by slot

  predicate Sized(ds: seq<Desc>, bs: seq<seq<byte>>) {
    |ds| == TX_RING_SIZE && |bs| == TX_RING_SIZE
  }

  /** A slot holds segment s, as far as transmit() writes it before the flags. */
  predicate Filled(d: Desc, b: seq<byte>, s: Segment) {
    d.size == |s.data| <= |b| && b[..|s.data|] == s.data
  }

  predicate Holds(d: Desc, b: seq<byte>, s: Segment) {
    Filled(d, b, s) && d.fs == d.ttse == s.first && d.ls == d.ic == s.last
  }

  /** Positions in flight hold the accepted segments. */
  predicate Loaded(ds: seq<Desc>, bs: seq<seq<byte>>, segs: seq<Segment>, tail: nat)
    requires Sized(ds, bs)
  {
    forall j {:trigger Slot(j)} :: tail <= j < |segs| ==> Holds(ds[Slot(j)], bs[Slot(j)], segs[j])
  }

  /** The DMA owns the segments it has not sent, except for those from `held` up
      to `shown`, which are not handed to it yet, and no other slot. */
  predicate Owned(ds: seq<Desc>, segs: seq<Segment>, d: nat, tail: nat, held: nat, shown: nat)
    requires |ds| == TX_RING_SIZE
  {
    && tail <= d <= |segs| <= tail + TX_RING_SIZE
    && held <= shown <= |segs| && (held < shown ==> d <= held)
    && forall j {:trigger Slot(j)} :: tail <= j < tail + TX_RING_SIZE ==>
      (ds[Slot(j)].own <==> d <= j < |segs| && !(held <= j < shown))
  }

  /** What was sent is the accepted segments in order, a time stamp asked for with the
      first of each frame and an interrupt with the last. */
  predicate InOrder(segs: seq<Segment>, sent: seq<Sent>) {
    |sent| <= |segs| && forall j :: 0 <= j < |sent| ==>
      sent[j].seg == segs[j] && sent[j].timed == segs[j].first && sent[j].interrupts == segs[j].last
  }

  /** The time stamp of a frame's last segment stays in its slot. */
  predicate Stamped(ds: seq<Desc>, segs: seq<Segment>, sent: seq<Sent>, tail: nat)
    requires |ds| == TX_RING_SIZE && |sent| <= |segs|
  {
    forall j {:trigger Slot(j)} :: tail <= j < |sent| && segs[j].last ==> ds[Slot(j)].stamp == sent[j].stamp
  }

  predicate Marked(ds: seq<Desc>, bs: seq<seq<byte>>)
    requires Sized(ds, bs)
  {
    && (forall i :: 0 <= i < TX_RING_SIZE ==> (ds[i].ter <==> i == TX_RING_SIZE - 1))
    && (forall i :: 0 <= i < TX_RING_SIZE ==> |bs[i]| == SEGMENT_SIZE)
  }

  predicate Core(ds: seq<Desc>, bs: seq<seq<byte>>, segs: seq<Segment>, sent: seq<Sent>,
                 tail: nat, held: nat, shown: nat) {
    && Sized(ds, bs) && Loaded(ds, bs, segs, tail) && Owned(ds, segs, |sent|, tail, held, shown)
    && InOrder(segs, sent) && Stamped(ds, segs, sent, tail) && Marked(ds, bs)
  }

  /** The engine sends segment |sent|: it takes bytes and flags from the slot. */
  function Took(ds: seq<Desc>, bs: seq<seq<byte>>, c: nat, stamp: int): Sent
    requires Sized(ds, bs) && c < TX_RING_SIZE && ds[c].size <= |bs[c]|
  {
    Sent(Segment(bs[c][..ds[c].size], ds[c].fs, ds[c].ls), stamp, ds[c].ttse, ds[c].ic)
  }

  function Cleared(d: Desc, stamp: int): Desc {
    d.(own := false, stamp := if d.ls then stamp else d.stamp)
  }

  /** The engine keeps the ring, whatever the driver is in the middle of. */
  lemma SendKeeps(ds: seq<Desc>, bs: seq<seq<byte>>, segs: seq<Segment>, sent: seq<Sent>,
                  tail: nat, held: nat, shown: nat, stamp: int)
    requires Core(ds, bs, segs, sent, tail, held, shown) && Sized(ds, bs)
    requires ds[Slot(|sent|)].own
    ensures tail <= |sent| < |segs| && ds[Slot(|sent|)].size <= |bs[Slot(|sent|)]|
    ensures ds[Slot(|sent|)].ter <==> Slot(|sent|) == TX_RING_SIZE - 1
    ensures Core(ds[Slot(|sent|) := Cleared(ds[Slot(|sent|)], stamp)], bs, segs,
                 sent + [Took(ds, bs, Slot(|sent|), stamp)], tail, held, shown)
  {
    NextPlace(ds, bs, segs, sent, tail, held, shown);
    SentOwned(ds, segs, |sent|, tail, held, shown, stamp);
    SlotInjective();
    var c := Slot(|sent|);
    var ds' := ds[c := Cleared(ds[c], stamp)];
    assert tail <= |sent| < tail + TX_RING_SIZE && |sent| < |segs|;
    hide Owned;
    forall j {:trigger Slot(j)} | tail <= j < tail + TX_RING_SIZE
      ensures j != |sent| ==> ds'[Slot(j)] == ds[Slot(j)]
    {
    }
  }

  lemma SlotTurn(j: int)
    ensures Slot(j + TX_RING_SIZE) == Slot(j)
  {
  }

  lemma InFlight(ds: seq<Desc>, bs: seq<seq<byte>>, segs: seq<Segment>, sent: seq<Sent>,
                 tail: nat, held: nat, shown: nat)
    requires Core(ds, bs, segs, sent, tail, held, shown)
    ensures tail <= |sent| <= |segs| <= tail + TX_RING_SIZE
  {
  }

  /** What the engine owns is the next segment. */
  lemma NextPlace(ds: seq<Desc>, bs: seq<seq<byte>>, segs: seq<Segment>, sent: seq<Sent>,
                  tail: nat, held: nat, shown: nat)
    requires Core(ds, bs, segs, sent, tail, held, shown) && Sized(ds, bs)
    requires ds[Slot(|sent|)].own
    ensures tail <= |sent| < |segs| && |sent| < tail + TX_RING_SIZE
    ensures Holds(ds[Slot(|sent|)], bs[Slot(|sent|)], segs[|sent|])
  {
    hide Stamped, InOrder, Marked;
    SlotTurn(tail);
    assert Loaded(ds, bs, segs, tail);
  }

  lemma SentOwned(ds: seq<Desc>, segs: seq<Segment>, d: nat, tail: nat, held: nat, shown: nat, stamp: int)
    requires |ds| == TX_RING_SIZE && Owned(ds, segs, d, tail, held, shown)
    requires d < |segs| && d < tail + TX_RING_SIZE && ds[Slot(d)].own
    ensures Owned(ds[Slot(d) := Cleared(ds[Slot(d)], stamp)], segs, d + 1, tail, held, shown)
  {
    SlotInjective();
    var c := Slot(d);
    var ds' := ds[c := Cleared(ds[c], stamp)];
    forall j {:trigger Slot(j)} | tail <= j < tail + TX_RING_SIZE
      ensures ds'[Slot(j)].own <==> d + 1 <= j < |segs| && !(held <= j < shown)
    {
      assert j != d ==> Slot(j) != c;
    }
  }

  // ----- transmit() on values

  /** The descriptor that transmit() prepares: size set, all flags but TER off. */
  function Prepared(d: Desc, size: nat): Desc {
    d.(own := false, ic := false, ls := false, fs := false, ttse := false, size := size)
  }

  /** The first k segments of a frame are written behind the ones in flight, with
      the flags marked so far. */
  predicate Written(ds: seq<Desc>, bs: seq<seq<byte>>, pieces: seq<Segment>, h: nat, k: nat, first: bool, last: bool)
    requires Sized(ds, bs) && k <= |pieces|
  {
    forall j {:trigger Slot(j)} :: h <= j < h + k ==>
      && Filled(ds[Slot(j)], bs[Slot(j)], pieces[j - h])
      && ds[Slot(j)].fs == ds[Slot(j)].ttse == (first && j == h)
      && ds[Slot(j)].ls == ds[Slot(j)].ic == (last && j == h + |pieces| - 1)
  }

  /** Writing a free slot leaves the ones in flight alone. */
  lemma WriteKeeps(ds: seq<Desc>, bs: seq<seq<byte>>, segs: seq<Segment>, sent: seq<Sent>, tail: nat,
                   pieces: seq<Segment>, k: nat, d: Desc, b: seq<byte>)
    requires Core(ds, bs, segs, sent, tail, |segs|, |segs|) && Sized(ds, bs)
    requires k < |pieces| && |segs| + |pieces| <= tail + TX_RING_SIZE
    requires Written(ds, bs, pieces, |segs|, k, false, false)
    requires d.ter == ds[Slot(|segs| + k)].ter && !d.own && !d.fs && !d.ls && !d.ttse && !d.ic
    requires |b| == SEGMENT_SIZE && Filled(d, b, pieces[k])
    ensures var c := Slot(|segs| + k);
      && Core(ds[c := d], bs[c := b], segs, sent, tail, |segs|, |segs|)
      && Written(ds[c := d], bs[c := b], pieces, |segs|, k + 1, false, false)
  {
    SlotInjective();
    var h := |segs|;
    var c := Slot(h + k);
    forall j {:trigger Slot(j)} | tail <= j < tail + TX_RING_SIZE ensures j == h + k || Slot(j) != c {
    }
  }

  /** Setting the flags of a free slot leaves the ones in flight alone. */
  lemma MarkKeeps(ds: seq<Desc>, bs: seq<seq<byte>>, segs: seq<Segment>, sent: seq<Sent>, tail: nat, p: nat, d: Desc)
    requires Core(ds, bs, segs, sent, tail, |segs|, |segs|) && Sized(ds, bs)
    requires |segs| <= p < tail + TX_RING_SIZE
    requires d.ter == ds[Slot(p)].ter && !d.own
    ensures Core(ds[Slot(p) := d], bs, segs, sent, tail, |segs|, |segs|)
  {
    SlotInjective();
  }

  /** Taking the written frame into account, all of it still held back. */
  lemma AcceptKeeps(ds: seq<Desc>, bs: seq<seq<byte>>, segs: seq<Segment>, sent: seq<Sent>, tail: nat, data: seq<byte>)
    requires Core(ds, bs, segs, sent, tail, |segs|, |segs|) && Sized(ds, bs)
    requires |segs| + Count(data) <= tail + TX_RING_SIZE
    requires Written(ds, bs, Pieces(data), |segs|, Count(data), true, true)
    ensures Core(ds, bs, segs + Pieces(data), sent, tail, |segs|, |segs| + Count(data))
  {
    var all := segs + Pieces(data);
    forall j {:trigger Slot(j)} | tail <= j < |all| ensures Holds(ds[Slot(j)], bs[Slot(j)], all[j]) {
      if j < |segs| { assert all[j] == segs[j]; } else { assert all[j] == Piece(data, j - |segs|); }
    }
  }

  /** Handing the DMA one more segment, the last of those held back. */
  lemma PublishKeeps(ds: seq<Desc>, bs: seq<seq<byte>>, segs: seq<Segment>, sent: seq<Sent>,
                     tail: nat, held: nat, shown: nat)
    requires Core(ds, bs, segs, sent, tail, held, shown) && Sized(ds, bs) && tail <= held < shown
    ensures Core(ds[Slot(shown - 1) := ds[Slot(shown - 1)].(own := true)], bs, segs, sent, tail, held, shown - 1)
  {
    SlotInjective();
    var c := Slot(shown - 1);
    var ds' := ds[c := ds[c].(own := true)];
    forall j {:trigger Slot(j)} | tail <= j < tail + TX_RING_SIZE
      ensures ds'[Slot(j)].own <==> |sent| <= j < |segs| && !(held <= j < shown - 1)
    {
      assert j != shown - 1 ==> Slot(j) != c;
    }
  }

  /** The engine's work does not touch what is being written. */
  lemma WrittenKept(ds: seq<Desc>, ds': seq<Desc>, bs: seq<seq<byte>>, pieces: seq<Segment>,
                    h: nat, k: nat, first: bool, last: bool)
    requires Sized(ds, bs) && Sized(ds', bs) && k <= |pieces| && Written(ds, bs, pieces, h, k, first, last)
    requires forall i :: 0 <= i < TX_RING_SIZE ==> ds'[i] == ds[i].(own := ds'[i].own, stamp := ds'[i].stamp)
    ensures Written(ds', bs, pieces, h, k, first, last)
  {
    forall j {:trigger Slot(j)} | h <= j < h + k
      ensures ds'[Slot(j)] == ds[Slot(j)].(own := ds'[Slot(j)].own, stamp := ds'[Slot(j)].stamp)
    {
      SlotNext(j);
    }
  }

  /** A free slot is not the engine's, whatever else it holds. */
  lemma FreeSlot(ds: seq<Desc>, bs: seq<seq<byte>>, segs: seq<Segment>, sent: seq<Sent>, tail: nat, p: nat)
    requires Core(ds, bs, segs, sent, tail, |segs|, |segs|) && Sized(ds, bs)
    requires |segs| <= p < tail + TX_RING_SIZE
    ensures !ds[Slot(p)].own && |bs[Slot(p)]| == SEGMENT_SIZE
  {
    SlotNext(p);
  }

  /** FLAGS_FIRST on the frame's first segment. */
  lemma FirstMarked(ds: seq<Desc>, bs: seq<seq<byte>>, pieces: seq<Segment>, h: nat)
    requires Sized(ds, bs) && 0 < |pieces| < TX_RING_SIZE && Written(ds, bs, pieces, h, |pieces|, false, false)
    ensures Written(ds[Slot(h) := ds[Slot(h)].(fs := true, ttse := true)], bs, pieces, h, |pieces|, true, false)
  {
    SlotInjective();
  }

  /** FLAGS_LAST on its last segment. */
  lemma LastMarked(ds: seq<Desc>, bs: seq<seq<byte>>, pieces: seq<Segment>, h: nat)
    requires Sized(ds, bs) && 0 < |pieces| < TX_RING_SIZE && Written(ds, bs, pieces, h, |pieces|, true, false)
    ensures var c := Slot(h + |pieces| - 1);
      Written(ds[c := ds[c].(ls := true, ic := true)], bs, pieces, h, |pieces|, true, true)
  {
    SlotInjective();
  }

  /** With nothing held back it does not matter where. */
  lemma NoneHeld(ds: seq<Desc>, bs: seq<seq<byte>>, segs: seq<Segment>, sent: seq<Sent>, tail: nat, held: nat)
    requires Core(ds, bs, segs, sent, tail, held, held)
    ensures Core(ds, bs, segs, sent, tail, |segs|, |segs|)
  {
  }

  /** The position of frame n's last segment. */
  function End(frames: seq<Frame>, n: nat): int
    requires n < |frames|
  {
    |Cut(frames[..n + 1])| - 1
  }

  /** Frames from number k on have their callback at their last slot. */
  predicate Backs(bk: seq<Callback>, frames: seq<Frame>, k: nat)
    requires |bk| == TX_RING_SIZE
  {
    forall n {:trigger End(frames, n)} :: k <= n < |frames| ==> bk[Slot(End(frames, n))] == frames[n].back
  }

  lemma {:induction false} EndsApart(frames: seq<Frame>, m: nat, n: nat)
    requires m <= n < |frames| && forall f :: f in frames ==> Sendable(f.data)
    ensures |Cut(frames[..m])| <= End(frames, n) < |Cut(frames)|
    ensures m < n ==> End(frames, m) < End(frames, n)
    decreases n - m
  {
    assert frames[n] in frames && frames[m] in frames;
    CutOne(frames, n);
    CutOne(frames, m);
    if m < n {
      EndsApart(frames, m + 1, n);
    }
  }

  /** A new frame's callback is stored beside the others. */
  lemma BacksAppend(bk: seq<Callback>, frames: seq<Frame>, f: Frame, k: nat, tail: nat)
    requires |bk| == TX_RING_SIZE && Backs(bk, frames, k) && k <= |frames|
    requires (forall g :: g in frames ==> Sendable(g.data)) && Sendable(f.data)
    requires tail == |Cut(frames[..k])| && |Cut(frames)| + Count(f.data) <= tail + TX_RING_SIZE
    ensures Backs(bk[Slot(|Cut(frames)| + Count(f.data) - 1) := f.back], frames + [f], k)
  {
    hide Count, Cut, Piece, Pieces;
    SlotInjective();
    var all := frames + [f];
    CutAppend(frames, f);
    var bk' := bk[Slot(|Cut(frames)| + Count(f.data) - 1) := f.back];
    forall n {:trigger End(all, n)} | k <= n < |all| ensures bk'[Slot(End(all, n))] == all[n].back {
      if n < |frames| {
        assert all[..n + 1] == frames[..n + 1];
        assert End(all, n) == End(frames, n);
        EndsApart(frames, k, n);
      } else {
        assert all[..n + 1] == all;
      }
    }
  }

  lemma OwnedThrough(ds: seq<Desc>, segs: seq<Segment>, d: nat, tail: nat, held: nat, shown: nat, b: nat)
    requires |ds| == TX_RING_SIZE && Owned(ds, segs, d, tail, held, shown)
    requires d < b <= |segs| && !(d < held < b) && ds[Slot(d)].own
    ensures forall j :: d <= j < b ==> ds[Slot(j)].own
  {
    assert tail <= d < tail + TX_RING_SIZE;
  }

  /** No frame but the newest has its end inside another. */
  lemma FrameBoundary(frames: seq<Frame>, n: nat)
    requires n < |frames| && forall f :: f in frames ==> Sendable(f.data)
    ensures var a, b, h := |Cut(frames[..n])|, |Cut(frames[..n + 1])|, |Cut(frames[..|frames| - 1])|;
      a < b <= |Cut(frames)| && !(a < h < b)
  {
    hide Cut;
    EndsApart(frames, n, n);
    if n < |frames| - 1 {
      EndsApart(frames, n, |frames| - 2);
      assert frames[..|frames| - 2 + 1] == frames[..|frames| - 1];
    }
  }

  /** The engine never finds a frame's first segment without the rest: when it
      comes to frame n and owns the first slot, it owns every slot of the frame.
      Held back is nothing, or the newest frame from its end. */
  lemma WholeFrameOwned(ds: seq<Desc>, bs: seq<seq<byte>>, frames: seq<Frame>, sent: seq<Sent>, tail: nat,
                        held: nat, shown: nat, n: nat)
    requires Core(ds, bs, Cut(frames), sent, tail, held, shown) && Sized(ds, bs)
    requires n < |frames| && forall f :: f in frames ==> Sendable(f.data)
    requires held == |Cut(frames)| || held == |Cut(frames[..|frames| - 1])|
    requires |sent| == |Cut(frames[..n])| && ds[Slot(|sent|)].own
    ensures forall j :: |sent| <= j <= End(frames, n) ==> ds[Slot(j)].own
  {
    hide Cut, Slot, Owned;
    FrameBoundary(frames, n);
    OwnedThrough(ds, Cut(frames), |sent|, tail, held, shown, End(frames, n) + 1);
  }

  // ----- processFrameTx() on values

  /** What can be read from a slot in flight. */
  lemma Readable(ds: seq<Desc>, bs: seq<seq<byte>>, segs: seq<Segment>, sent: seq<Sent>, tail: nat, j: nat)
    requires Core(ds, bs, segs, sent, tail, |segs|, |segs|) && Sized(ds, bs)
    requires tail <= j < |segs|
    ensures Holds(ds[Slot(j)], bs[Slot(j)], segs[j])
    ensures |sent| <= |segs| && (ds[Slot(j)].own <==> |sent| <= j)
    ensures j < |sent| && segs[j].last ==> ds[Slot(j)].stamp == sent[j].stamp
  {
    assert tail <= j < tail + TX_RING_SIZE;
  }

  /** Slots of segments that were sent can be given back. */
  lemma ReclaimKeeps(ds: seq<Desc>, bs: seq<seq<byte>>, segs: seq<Segment>, sent: seq<Sent>, tail: nat, tail': nat)
    requires Core(ds, bs, segs, sent, tail, |segs|, |segs|)
    requires tail <= tail' <= |sent|
    ensures Core(ds, bs, segs, sent, tail', |segs|, |segs|)
  {
    forall j {:trigger Slot(j)} | tail' <= j < tail' + TX_RING_SIZE
      ensures ds[Slot(j)].own <==> |sent| <= j < |segs|
    {
      if j >= tail + TX_RING_SIZE {
        assert Slot(j) == Slot(j - TX_RING_SIZE);
      }
    }
  }

  /** The oldest frame kept, as it lies from the tail on. */
  lemma OldestFrame(frames: seq<Frame>, done: nat, tail: nat)
    requires done <= |frames| && tail == |Cut(frames[..done])| && forall f :: f in frames ==> Sendable(f.data)
    ensures tail <= |Cut(frames)| && (tail < |Cut(frames)| ==> done < |frames|)
    ensures done < |frames| ==>
      var data := frames[done].data;
      && Sendable(data) && tail + Count(data) <= |Cut(frames)|
      && End(frames, done) == tail + Count(data) - 1
      && forall k :: 0 <= k < Count(data) ==> Cut(frames)[tail + k] == Piece(data, k)
  {
    hide Count, Piece, Cut;
    if done == |frames| {
      assert frames[..done] == frames;
    } else {
      assert frames[done] in frames && Sendable(frames[done].data);
      CutOne(frames, done);
      var data, segs := frames[done].data, Cut(frames);
      forall k | 0 <= k < Count(data) ensures segs[tail + k] == Piece(data, k) {
        assert segs[tail..tail + Count(data)][k] == Pieces(data)[k];
      }
    }
  }

  /** One more segment put behind those before it. */
  lemma AssembledNext(all: seq<byte>, k: nat, d: Desc, b: seq<byte>)
    requires k < Count(all) && Holds(d, b, Piece(all, k))
    ensures d.size <= |b|
    ensures all[..Min(|all|, SEGMENT_SIZE * k)] + b[..d.size] == all[..Min(|all|, SEGMENT_SIZE * (k + 1))]
  {
    PieceContinues(all, k);
    assert all[..|all|] == all;
  }

  /** The callback of frame k is cleared, the later ones stay. */
  lemma BacksCleared(bk: seq<Callback>, frames: seq<Frame>, k: nat, tail: nat, cleared: Callback)
    requires |bk| == TX_RING_SIZE && k < |frames| && Backs(bk, frames, k)
    requires forall f :: f in frames ==> Sendable(f.data)
    requires tail == |Cut(frames[..k])| && |Cut(frames)| <= tail + TX_RING_SIZE - 1
    ensures Backs(bk[Slot(End(frames, k)) := cleared], frames, k + 1)
  {
    SlotInjective();
    forall n {:trigger End(frames, n)} | k + 1 <= n < |frames|
      ensures Slot(End(frames, n)) != Slot(End(frames, k))
    {
      EndsApart(frames, k, n);
      EndsApart(frames, k, k);
    }
  }

  /** One more frame's callback. */
  lemma CompletionsNext(init: seq<Frame>, f: Frame, sent: seq<Sent>)
    requires Sendable(f.data) && (forall g :: g in init ==> Sendable(g.data))
    requires |Cut(init + [f])| <= |sent|
    ensures |Cut(init)| < |Cut(init + [f])|
    ensures Completions(init + [f], sent) == Completions(init, sent) +
      if f.back.call == 0 then []
      else [Completion(f.back.call, f.back.reference, f.data, sent[|Cut(init + [f])| - 1].stamp)]
  {
    hide Count, Pieces;
    CutAppend(init, f);
    var all := init + [f];
    assert all[..|all| - 1] == init && all[|all| - 1] == f;
    assert forall g :: g in all ==> Sendable(g.data);
  }

  /** If all frames have callbacks, there is one completion for each and in their order:
      number i has frame i's callback, argument and bytes and the time at which the
      frame's last segment was sent. */
  lemma {:induction false} CompletionsAre(frames: seq<Frame>, sent: seq<Sent>, i: nat)
    requires |Cut(frames)| <= |sent| && i < |frames|
    requires forall f :: f in frames ==> Sendable(f.data) && f.back.call != 0
    ensures 0 <= End(frames, i) < |sent| && |Completions(frames, sent)| == |frames|
    ensures Completions(frames, sent)[i] ==
      Completion(frames[i].back.call, frames[i].back.reference, frames[i].data, sent[End(frames, i)].stamp)
    decreases |frames|
  {
    hide Cut, Completions;
    var n := |frames| - 1;
    var init, f := frames[..n], frames[n];
    assert init + [f] == frames && f in frames;
    forall g | g in init
      ensures Sendable(g.data) && g.back.call != 0
    {
      assert g in frames;
    }
    EndsApart(frames, i, i);
    CompletionsNext(init, f, sent);
    if i < n {
      CompletionsAre(init, sent, i);
      assert init[..i + 1] == frames[..i + 1];
    } else {
      assert frames[..i + 1] == frames;
      CompletionsCount(init, sent);
    }
  }

  lemma {:induction false} CompletionsCount(frames: seq<Frame>, sent: seq<Sent>)
    requires |Cut(frames)| <= |sent|
    requires forall f :: f in frames ==> Sendable(f.data) && f.back.call != 0
    ensures |Completions(frames, sent)| == |frames|
    decreases |frames|
  {
    if frames != [] {
      var init := frames[..|frames| - 1];
      assert frames[|frames| - 1] in frames;
      CompletionsCount(init, sent);
    }
  }

  /** The callbacks invoked are those of the frames reclaimed; `was` is what had
      been sent by some earlier time. */
  predicate Booked(frames: seq<Frame>, done: nat, tail: nat, calls: seq<Completion>, was: seq<Sent>) {
    && (forall f :: f in frames ==> Sendable(f.data))
    && done <= |frames| && tail == |Cut(frames[..done])| <= |was|
    && (forall f :: f in frames[..done] ==> Sendable(f.data))
    && calls == Completions(frames[..done], was)
  }

  /** What the reclaimed frame adds to the callbacks invoked. */
  function NewCalls(f: Frame, stamp: int): seq<Completion> {
    if f.back.call == 0 then [] else [Completion(f.back.call, f.back.reference, f.data, stamp)]
  }

  lemma BookedNext(frames: seq<Frame>, done: nat, tail: nat, calls: seq<Completion>, sent: seq<Sent>)
    requires Booked(frames, done, tail, calls, sent) && done < |frames| && End(frames, done) < |sent|
    ensures 0 <= End(frames, done) && tail <= End(frames, done) + 1
    ensures Booked(frames, done + 1, End(frames, done) + 1,
                   calls + NewCalls(frames[done], sent[End(frames, done)].stamp), sent)
  {
    var f := frames[done];
    assert frames[..done + 1] == frames[..done] + [f] && f in frames;
    CompletionsNext(frames[..done], f, sent);
    forall g | g in frames[..done + 1] ensures Sendable(g.data) {
      assert g in frames;
    }
  }

  // ----- what the wire sees

  /** The frames that a receiver makes of the segments, by their flags, and the
      bytes of the one under way. */
  function OnWire(segs: seq<Segment>): (seq<seq<byte>>, seq<byte>) {
    if segs == [] then ([], [])
    else
      var (whole, part) := OnWire(segs[..|segs| - 1]);
      var s := segs[|segs| - 1];
      var body := (if s.first then [] else part) + s.data;
      if s.last then (whole + [body], []) else (whole, body)
  }

  function Payloads(frames: seq<Frame>): seq<seq<byte>> {
    seq(|frames|, i requires 0 <= i < |frames| => frames[i].data)
  }

  lemma OnWireNext(segs: seq<Segment>, s: Segment)
    ensures var (whole, part) := OnWire(segs);
      var body := (if s.first then [] else part) + s.data;
      OnWire(segs + [s]) == if s.last then (whole + [body], []) else (whole, body)
  {
    assert (segs + [s])[..|segs|] == segs;
  }

  /** Each segment continues where the one before it ended. */
  lemma PieceContinues(data: seq<byte>, k: nat)
    requires k < Count(data)
    ensures SEGMENT_SIZE * k <= |data| && (k + 1 < Count(data) ==> SEGMENT_SIZE * (k + 1) <= |data|)
    ensures data[..SEGMENT_SIZE * k] + Piece(data, k).data ==
      if k + 1 == Count(data) then data else data[..SEGMENT_SIZE * (k + 1)]
    ensures Piece(data, k).first == (k == 0) && Piece(data, k).last == (k + 1 == Count(data))
  {
    var a, b := SEGMENT_SIZE * k, Min(|data|, SEGMENT_SIZE * (k + 1));
    assert data[..a] + data[a..b] == data[..b];
    assert data[..|data|] == data;
  }

  /** The first k segments of a frame, sent after whole frames. */
  lemma {:induction false} OnWireFrame(before: seq<Segment>, data: seq<byte>, k: nat)
    requires k <= Count(data) && OnWire(before).1 == []
    requires k < Count(data) ==> SEGMENT_SIZE * k <= |data|
    ensures OnWire(before + Pieces(data)[..k]) ==
      if k == Count(data) then (OnWire(before).0 + [data], [])
      else (OnWire(before).0, data[..SEGMENT_SIZE * k])
  {
    hide Count, Piece, OnWire;
    var p := Pieces(data);
    if k == 0 {
      assert before + p[..0] == before;
    } else {
      PieceContinues(data, k - 1);
      OnWireFrame(before, data, k - 1);
      assert before + p[..k] == before + p[..k - 1] + [Piece(data, k - 1)];
      OnWireNext(before + p[..k - 1], Piece(data, k - 1));
    }
  }

  lemma {:induction false} OnWireCut(frames: seq<Frame>)
    requires forall f :: f in frames ==> Sendable(f.data)
    ensures OnWire(Cut(frames)) == (Payloads(frames), [])
    decreases |frames|
  {
    if frames != [] {
      var init, f := frames[..|frames| - 1], frames[|frames| - 1];
      assert f in frames;
      OnWireCut(init);
      OnWireFrame(Cut(init), f.data, Count(f.data));
      assert Pieces(f.data)[..Count(f.data)] == Pieces(f.data);
      assert Payloads(frames) == Payloads(init) + [f.data];
    }
  }

  /** The frame that segment number m belongs to. */
  lemma {:induction false} FrameAt(frames: seq<Frame>, m: nat) returns (n: nat)
    requires m <= |Cut(frames)|
    ensures n <= |frames| && |Cut(frames[..n])| <= m
    ensures n < |frames| ==> m < |Cut(frames[..n + 1])|
    ensures n == |frames| ==> m == |Cut(frames)|
    decreases |frames|
  {
    assert frames[..|frames|] == frames;
    if m == |Cut(frames)| {
      return |frames|;
    }
    var init := frames[..|frames| - 1];
    if m < |Cut(init)| {
      n := FrameAt(init, m);
      assert init[..n] == frames[..n] && init[..n + 1] == frames[..n + 1];
    } else {
      n := |init|;
    }
  }

  /** Whole frames and k segments of the next, as they lie in the cut. */
  lemma CutUpTo(frames: seq<Frame>, n: nat, sent: seq<Segment>)
    requires n < |frames| && sent <= Cut(frames)
    requires |Cut(frames[..n])| <= |sent| < |Cut(frames[..n + 1])|
    ensures |sent| - |Cut(frames[..n])| < Count(frames[n].data)
    ensures sent == Cut(frames[..n]) + Pieces(frames[n].data)[..|sent| - |Cut(frames[..n])|]
  {
    hide Count, Piece, Pieces;
    CutOne(frames, n);
    CutIsPrefix(frames, n);
    var a, p := |Cut(frames[..n])|, Pieces(frames[n].data);
    assert Cut(frames)[a..a + |p|] == p;
    assert sent == Cut(frames)[..a] + Cut(frames)[a..|sent|];
    assert Cut(frames)[a..|sent|] == p[..|sent| - a];
  }

  lemma {:induction false} CutIsPrefix(frames: seq<Frame>, n: nat)
    requires n <= |frames|
    ensures Cut(frames[..n]) <= Cut(frames)
    decreases |frames|
  {
    if n < |frames| {
      CutIsPrefix(frames[..|frames| - 1], n);
      assert frames[..|frames| - 1][..n] == frames[..n];
    } else {
      assert frames[..n] == frames;
    }
  }

  lemma PayloadsUpTo(frames: seq<Frame>, n: nat)
    requires n <= |frames|
    ensures |Payloads(frames)| == |frames| && Payloads(frames[..n]) == Payloads(frames)[..n]
  {
  }

  /** The wire carries the accepted frames, whole, unaltered and in order: what
      was sent is some number of whole frames and then the beginning of the next. */
  lemma WireIsFifo(frames: seq<Frame>, sent: seq<Segment>) returns (n: nat)
    requires forall f :: f in frames ==> Sendable(f.data)
    requires sent <= Cut(frames)
    ensures n <= |frames| && OnWire(sent).0 == Payloads(frames)[..n]
    ensures |Cut(frames[..n])| <= |sent|
    ensures n < |frames| ==> |sent| < |Cut(frames[..n + 1])| && OnWire(sent).1 <= frames[n].data
    ensures n == |frames| ==> OnWire(sent).1 == [] && sent == Cut(frames)
  {
    hide Count, Piece, Pieces, Cut, OnWire, Payloads;
    n := FrameAt(frames, |sent|);
    forall f | f in frames[..n] ensures Sendable(f.data) {
      assert f in frames;
    }
    OnWireCut(frames[..n]);
    PayloadsUpTo(frames, n);
    if n < |frames| {
      var f := frames[n];
      assert f in frames && Sendable(f.data);
      CutUpTo(frames, n, sent);
      var k := |sent| - |Cut(frames[..n])|;
      PieceContinues(f.data, k);
      OnWireFrame(Cut(frames[..n]), f.data, k);
    } else {
      assert frames[..n] == frames;
      assert sent == Cut(frames);
    }
  }

  /** Frames reclaimed were sent whole. */
  lemma ReclaimedWasSent(frames: seq<Frame>, done: nat, n: nat, m: nat)
    requires done <= |frames| && (forall f :: f in frames ==> Sendable(f.data))
    requires n < |frames| && |Cut(frames[..done])| <= m < |Cut(frames[..n + 1])|
    ensures done <= n
  {
    if n + 1 < done {
      EndsApart(frames, n + 1, done - 1);
    }
  }

  // ----- the ring as a queue

  datatype Request = Offer(frame: Frame) | Poll

  datatype Books = Books(frames: seq<Frame>, done: nat, calls: seq<Completion>, sent: nat)

  /** A frame is accepted whole exactly when it is not too long and its segments fit
      behind those of the frames not yet reclaimed. */
  predicate Offered(a: Books, f: Frame, ok: bool, b: Books) {
    && a.done <= |a.frames|
    && ok == (|f.data| <= MTU
              && |Cut(a.frames)| + Asked(f.data) <= |Cut(a.frames[..a.done])| + TX_RING_SIZE - 1)
    && b == a.(frames := if ok then a.frames + [f] else a.frames, sent := b.sent) && a.sent <= b.sent
  }

  /** A poll succeeds if the oldest frame was sent whole before it, and then reclaims
      that frame and invokes its callback, which may transmit. */
  ghost predicate Polled(a: Books, ok: bool, b: Books) {
    && a.sent <= b.sent
    && (a.done < |a.frames| && End(a.frames, a.done) < a.sent ==> ok)
    && if !ok then b == a.(sent := b.sent)
       else
         && a.done < |a.frames| && End(a.frames, a.done) < b.sent && b.done == a.done + 1
         && a.frames <= b.frames
         && (exists stamp: int :: b.calls == a.calls + NewCalls(a.frames[a.done], stamp))
         && (a.frames[a.done].back.call == 0 ==> b.frames == a.frames)
  }

  /** The request that ruins the ring: an empty frame while it is full. */
  predicate Breaks(a: Books, r: Request) {
    && r.Offer? && r.frame.data == [] && a.done <= |a.frames|
    && |Cut(a.frames)| >= |Cut(a.frames[..a.done])| + TX_RING_SIZE - 1
  }

  ghost predicate Served(a: Books, r: Request, ok: bool, b: Books) {
    match r
    case Offer(f) => Offered(a, f, ok, b)
    case Poll => Polled(a, ok, b)
  }

  ghost predicate IsRun(requests: seq<Request>, replies: seq<bool>, run: seq<Books>) {
    && |replies| == |requests| && |run| == |requests| + 1
    && forall i :: 0 <= i < |requests| ==> Served(run[i], requests[i], replies[i], run[i + 1])
  }

  lemma RunNext(requests: seq<Request>, replies: seq<bool>, run: seq<Books>, r: Request, ok: bool, b: Books)
    requires IsRun(requests, replies, run) && Served(run[|requests|], r, ok, b)
    ensures IsRun(requests + [r], replies + [ok], run + [b])
  {
    hide Served;
  }

  /** The frame that a request adds. */
  function Taken(r: Request, ok: bool): seq<Frame> {
    if r.Offer? && ok then [r.frame] else []
  }

  /** The frames offered and accepted, in order. */
  function Accepted(requests: seq<Request>, replies: seq<bool>): seq<Frame>
    requires |replies| == |requests|
  {
    if requests == [] then []
    else
      var n := |requests| - 1;
      Accepted(requests[..n], replies[..n]) + Taken(requests[n], replies[n])
  }

  /** The successful polls. */
  function Reclaimed(requests: seq<Request>, replies: seq<bool>): nat
    requires |replies| == |requests|
  {
    if requests == [] then 0
    else
      var n := |requests| - 1;
      Reclaimed(requests[..n], replies[..n]) + if requests[n].Poll? && replies[n] then 1 else 0
  }

  predicate Increasing(places: seq<int>, low: int, high: int) {
    && (forall i :: 0 <= i < |places| ==> low <= places[i] < high)
    && (forall i, j :: 0 <= i < j < |places| ==> places[i] < places[j])
  }

  /** From a to b these frames were accepted, each found at its place, and so many
      reclaimed; and nothing else was accepted unless a callback was due. */
  predicate Queued(a: Books, b: Books, mine: seq<Frame>, reclaimed: nat, places: seq<int>) {
    && a.frames <= b.frames && a.calls <= b.calls && b.done == a.done + reclaimed
    && |places| == |mine| && Increasing(places, |a.frames|, |b.frames|)
    && (forall i :: 0 <= i < |mine| ==> b.frames[places[i]] == mine[i])
    && (b.calls == a.calls ==> b.frames == a.frames + mine)
  }

  lemma QueuedOffer(a: Books, b: Books, c: Books, mine: seq<Frame>, reclaimed: nat, places: seq<int>, f: Frame)
    requires Queued(a, b, mine, reclaimed, places) && Offered(b, f, true, c)
    ensures Queued(a, c, mine + [f], reclaimed, places + [|b.frames|])
  {
    hide Cut, Count;
  }

  lemma QueuedPoll(a: Books, b: Books, c: Books, mine: seq<Frame>, reclaimed: nat, places: seq<int>)
    requires Queued(a, b, mine, reclaimed, places) && Polled(b, true, c)
    ensures Queued(a, c, mine, reclaimed + 1, places)
  {
    var stamp: int :| c.calls == b.calls + NewCalls(b.frames[b.done], stamp);
    if c.calls == a.calls {
      assert |c.calls| == |b.calls| + |NewCalls(b.frames[b.done], stamp)|;
      assert b.calls == a.calls;
    }
  }

  lemma QueuedSame(a: Books, b: Books, c: Books, mine: seq<Frame>, reclaimed: nat, places: seq<int>)
    requires Queued(a, b, mine, reclaimed, places) && c == b.(sent := c.sent)
    ensures Queued(a, c, mine, reclaimed, places)
  {
  }

  lemma Refused(a: Books, r: Request, b: Books)
    requires Served(a, r, false, b)
    ensures b == a.(sent := b.sent)
  {
    hide Cut, Count;
  }

  lemma QueuedStep(a: Books, b: Books, c: Books, mine: seq<Frame>, reclaimed: nat, places: seq<int>,
                   r: Request, ok: bool) returns (after: seq<int>)
    requires Queued(a, b, mine, reclaimed, places) && Served(b, r, ok, c)
    ensures Queued(a, c, mine + Taken(r, ok), reclaimed + if r.Poll? && ok then 1 else 0, after)
  {
    hide Queued, Offered, Polled;
    after := places;
    assert mine + [] == mine;
    if !ok {
      Refused(b, r, c);
      QueuedSame(a, b, c, mine, reclaimed, places);
    } else if r.Offer? {
      QueuedOffer(a, b, c, mine, reclaimed, places, r.frame);
      after := places + [|b.frames|];
    } else {
      QueuedPoll(a, b, c, mine, reclaimed, places);
    }
  }

  /** Over any run every accepted frame is queued once, in the order of acceptance,
      with callbacks' own frames between them, and one frame leaves with each
      successful poll. */
  lemma {:induction false} RunIsQueue(requests: seq<Request>, replies: seq<bool>, run: seq<Books>)
      returns (places: seq<int>)
    requires IsRun(requests, replies, run)
    ensures Queued(run[0], run[|requests|], Accepted(requests, replies), Reclaimed(requests, replies), places)
    decreases |requests|
  {
    if requests == [] {
      places := [];
    } else {
      var n := |requests| - 1;
      var mine, left := Accepted(requests[..n], replies[..n]), Reclaimed(requests[..n], replies[..n]);
      places := RunIsQueue(requests[..n], replies[..n], run[..n + 1]);
      hide Queued, Served;
      assert Served(run[n], requests[n], replies[n], run[n + 1]);
      places := QueuedStep(run[0], run[n], run[n + 1], mine, left, places, requests[n], replies[n]);
    }
  }

  // ----- the edge of the room test

  /** The test for room protects the segments in flight, unless the frame is
      empty and the ring is full. */
  lemma RoomTestExactly(tail: nat, head: nat, data: seq<byte>)
    requires tail <= head <= tail + TX_RING_SIZE - 1
    ensures ((Slot(tail) - Slot(head) - 1) % TX_RING_SIZE >= Asked(data)
             ==> head + Count(data) <= tail + TX_RING_SIZE - 1)
      <==> data != [] || head < tail + TX_RING_SIZE - 1
  {
    RoomLeft(tail, head);
  }

  class TxRing {
    const desc: array<Desc>            // txDesc
    const buffer: array<seq<byte>>     // txBuffer
    const back: array<Callback>        // txCallback
    var txHead: int
    var txTail: int
    var txTime: int
    var overflowTx: word
    var cursor: int                    // the descriptor the DMA is at

    ghost var frames: seq<Frame>       // every frame accepted so far
    ghost var sent: seq<Sent>          // every segment the DMA has sent
    ghost var done: nat                // frames reclaimed so far
    ghost var tail: nat                // position of the oldest segment kept
    ghost var calls: seq<Completion>   // every callback invoked so far

    ghost predicate Shape()
      reads this, desc, buffer
    {
      && desc.Length == TX_RING_SIZE && buffer.Length == TX_RING_SIZE && back.Length == TX_RING_SIZE
      && txTail == Slot(tail) && cursor == Slot(|sent|)
    }

    /** The shared part of the state, at any point of the driver's code. */
    ghost predicate Shared(held: nat, shown: nat)
      reads this, desc, buffer
    {
      Shape() && Core(desc[..], buffer[..], Cut(frames), sent, tail, held, shown)
    }

    /** The driver's own indices and tables, when it is not in the middle of
        something. */
    ghost predicate Sound()
      reads this, desc, buffer, back
    {
      && Shared(|Cut(frames)|, |Cut(frames)|) && txHead == Slot(|Cut(frames)|)
      && Backs(back[..], frames, done) && BooksAt(sent)
    }

    /** One slot at least is not in flight, so that the indices tell a full ring from
        an empty one. */
    ghost predicate Bounded()
      reads this`frames, this`tail
    {
      |Cut(frames)| <= tail + TX_RING_SIZE - 1
    }

    ghost predicate Valid()
      reads this, desc, buffer, back
    {
      Sound() && Bounded()
    }

    /** The driver's state with a reclaimed frame's callback still to be invoked. */
    ghost predicate Owing(c: seq<Completion>)
      reads this, desc, buffer, back
    {
      && Shared(|Cut(frames)|, |Cut(frames)|) && txHead == Slot(|Cut(frames)|)
      && Backs(back[..], frames, done) && Booked(frames, done, tail, calls + c, sent) && Bounded()
    }

    ghost predicate BooksAt(was: seq<Sent>)
      reads this`frames, this`done, this`tail, this`calls
    {
      Booked(frames, done, tail, calls, was)
    }

    // ----- the DMA engine

    /** At most the newest frame is held back from the engine. */
    ghost predicate Newest(held: nat)
      reads this`frames
    {
      && (forall f :: f in frames ==> Sendable(f.data))
      && (held == |Cut(frames)| || (frames != [] && held == |Cut(frames[..|frames| - 1])|))
    }

    /** Whichever frame begins at this position, all its slots are the engine's. */
    ghost predicate WholeFrom(ds: seq<Desc>, at: nat)
      requires |ds| == TX_RING_SIZE
      reads this`frames
    {
      forall n :: 0 <= n < |frames| && at == |Cut(frames[..n])| ==> OwnedTo(ds, at, End(frames, n))
    }

    ghost predicate OwnedTo(ds: seq<Desc>, from: nat, to: int)
      requires |ds| == TX_RING_SIZE
    {
      forall j :: from <= j <= to ==> ds[Slot(j)].own
    }

    /** The engine sends the segment under its cursor, which it owns. */
    method Send(stamp: int, ghost held: nat, ghost shown: nat)
      requires Shared(held, shown) && 0 <= cursor < TX_RING_SIZE && desc[cursor].own
      modifies this`cursor, this`sent, desc
      ensures Shared(held, shown) && old(sent) < sent
      ensures forall i :: 0 <= i < TX_RING_SIZE ==>
        desc[i] == old(desc[i]).(own := desc[i].own, stamp := desc[i].stamp)
    {
      hide Core, Slot;
      SlotNext(|sent|);
      ghost var ds := desc[..];
      SendKeeps(ds, buffer[..], Cut(frames), sent, tail, held, shown, stamp);
      ghost var took := Took(ds, buffer[..], cursor, stamp);
      var it := desc[cursor];
      desc[cursor] := it.(own := false, stamp := if it.ls then stamp else it.stamp);
      assert desc[..] == ds[cursor := Cleared(ds[cursor], stamp)];
      sent := sent + [took];
      cursor := if it.ter then 0 else cursor + 1;
    }

    /** The engine takes the segment under its cursor if it owns it; when that is the
        first one of a frame, it owns the whole frame. */
    method DmaStep(stamp: int, ghost held: nat, ghost shown: nat)
      requires Shared(held, shown) && Newest(held)
      modifies this`cursor, this`sent, desc
      ensures Shared(held, shown) && old(sent) <= sent
      ensures old(sent) < sent ==> WholeFrom(old(desc[..]), |old(sent)|)
      ensures forall i :: 0 <= i < TX_RING_SIZE ==>
        desc[i] == old(desc[i]).(own := desc[i].own, stamp := desc[i].stamp)
    {
      hide Core, Slot, WholeFrom, Newest;
      SlotNext(|sent|);
      if desc[cursor].own {
        WholeFrames(held, shown);
        Send(stamp, held, shown);
      }
    }

    lemma NewestIs(held: nat, was: seq<Sent>)
      requires BooksAt(was)
      requires held == |Cut(frames)| || (frames != [] && held == |Cut(frames[..|frames| - 1])|)
      ensures Newest(held)
    {
    }

    lemma WholeFrames(held: nat, shown: nat)
      requires Shared(held, shown) && Newest(held) && 0 <= Slot(|sent|) < TX_RING_SIZE && desc[Slot(|sent|)].own
      ensures WholeFrom(desc[..], |sent|)
    {
      hide Core, Slot, Cut;
      forall n | 0 <= n < |frames| && |sent| == |Cut(frames[..n])|
        ensures OwnedTo(desc[..], |sent|, End(frames, n))
      {
        WholeFrameOwned(desc[..], buffer[..], frames, sent, tail, held, shown, n);
      }
    }

    /** Any number of steps of the engine. */
    method Dma(ghost held: nat, ghost shown: nat)
      requires Shared(held, shown) && Newest(held)
      modifies this`cursor, this`sent, desc
      ensures Shared(held, shown) && old(sent) <= sent
      ensures forall i :: 0 <= i < TX_RING_SIZE ==>
        desc[i] == old(desc[i]).(own := desc[i].own, stamp := desc[i].stamp)
    {
      hide Core, Slot;
      var n: nat :| n >= 0;
      while n > 0
        invariant Shared(held, shown) && old(sent) <= sent
        invariant forall i :: 0 <= i < TX_RING_SIZE ==>
          desc[i] == old(desc[i]).(own := desc[i].own, stamp := desc[i].stamp)
      {
        var stamp: int := *;
        DmaStep(stamp, held, shown);
        n := n - 1;
      }
    }

    // ----- transmit()

    /** One segment: its bytes, its size and its flags cleared. */
    method CopyPiece(ptr: int, piece: seq<byte>, ghost pieces: seq<Segment>, ghost h: nat, ghost k: nat)
      requires h == |Cut(frames)| && Shared(h, h) && Newest(h) && ptr == Slot(h + k)
      requires k < |pieces| && h + |pieces| <= tail + TX_RING_SIZE
      requires piece == pieces[k].data && |piece| <= SEGMENT_SIZE
      requires Written(desc[..], buffer[..], pieces, h, k, false, false)
      modifies this`cursor, this`sent, desc, buffer
      ensures Shared(h, h) && old(sent) <= sent
      ensures Written(desc[..], buffer[..], pieces, h, k + 1, false, false)
    {
      hide Core, Slot, Written, Newest, Cut;
      ghost var was := desc[..];
      Dma(h, h);
      WrittenKept(was, desc[..], buffer[..], pieces, h, k, false, false);
      SlotNext(h + k);
      FreeSlot(desc[..], buffer[..], Cut(frames), sent, tail, h + k);
      var bytes := piece + buffer[ptr][|piece|..];
      assert bytes[..|piece|] == piece;
      WriteKeeps(desc[..], buffer[..], Cut(frames), sent, tail, pieces, k, Prepared(desc[ptr], |piece|), bytes);
      ghost var ds, bs := desc[..], buffer[..];
      buffer[ptr] := bytes;
      desc[ptr] := Prepared(desc[ptr], |piece|);
      assert desc[..] == ds[ptr := Prepared(ds[ptr], |piece|)] && buffer[..] == bs[ptr := bytes];
    }

    /** The loop of transmit() that copies the frame, segment by segment. */
    method Copy(frame: seq<byte>, ghost h: nat) returns (ptr: int)
      requires h == |Cut(frames)| && Shared(h, h) && Newest(h) && txHead == Slot(h)
      requires Sendable(frame) && h + Count(frame) <= tail + TX_RING_SIZE
      modifies this`cursor, this`sent, desc, buffer
      ensures Shared(h, h) && old(sent) <= sent
      ensures Written(desc[..], buffer[..], Pieces(frame), h, Count(frame), false, false)
      ensures ptr == Slot(h + Count(frame) - 1)
    {
      hide Core, Slot, Written, Newest, Cut;
      ptr := txHead;
      var size, offset := |frame|, 0;
      ghost var k, pieces := 0, Pieces(frame);
      NothingWritten(pieces, h);
      while true
        invariant 0 <= k < Count(frame) && offset == SEGMENT_SIZE * k && size == |frame| - offset
        invariant ptr == Slot(h + k) && Shared(h, h) && old(sent) <= sent
        invariant Written(desc[..], buffer[..], pieces, h, k, false, false)
        decreases Count(frame) - k
      {
        var segment := Min(size, SEGMENT_SIZE);
        SlotNext(h + k);
        CopyPiece(ptr, frame[offset..offset + segment], pieces, h, k);
        offset := offset + segment;
        size := size - segment;
        k := k + 1;
        if size == 0 {
          break;
        }
        ptr := (ptr + 1) % TX_RING_SIZE;
      }
    }

    lemma NothingWritten(pieces: seq<Segment>, h: nat)
      requires desc.Length == TX_RING_SIZE && buffer.Length == TX_RING_SIZE
      ensures Written(desc[..], buffer[..], pieces, h, 0, false, false)
    {
    }

    /** The first and last segment are flagged. */
    method Mark(head: int, ptr: int, ghost data: seq<byte>, ghost h: nat)
      requires h == |Cut(frames)| && Shared(h, h) && Newest(h) && Sendable(data)
      requires h + Count(data) <= tail + TX_RING_SIZE
      requires Written(desc[..], buffer[..], Pieces(data), h, Count(data), false, false)
      requires head == Slot(h) && ptr == Slot(h + Count(data) - 1)
      modifies this`cursor, this`sent, desc
      ensures Shared(h, h) && old(sent) <= sent
      ensures Written(desc[..], buffer[..], Pieces(data), h, Count(data), true, true)
    {
      hide Core, Slot, Written;
      ghost var was, pieces, n := desc[..], Pieces(data), Count(data);
      Dma(h, h);
      WrittenKept(was, desc[..], buffer[..], pieces, h, n, false, false);
      MarkFirst(head, data, h);
      was := desc[..];
      Dma(h, h);
      WrittenKept(was, desc[..], buffer[..], pieces, h, n, true, false);
      MarkLast(ptr, data, h);
    }

    method MarkFirst(head: int, ghost data: seq<byte>, ghost h: nat)
      requires h == |Cut(frames)| && Shared(h, h) && Sendable(data) && head == Slot(h)
      requires h + Count(data) <= tail + TX_RING_SIZE
      requires Written(desc[..], buffer[..], Pieces(data), h, Count(data), false, false)
      modifies desc
      ensures Shared(h, h)
      ensures Written(desc[..], buffer[..], Pieces(data), h, Count(data), true, false)
    {
      hide Core, Slot, Written;
      SlotNext(h);
      FreeSlot(desc[..], buffer[..], Cut(frames), sent, tail, h);
      ghost var ds, d := desc[..], desc[head].(fs := true, ttse := true);
      MarkKeeps(ds, buffer[..], Cut(frames), sent, tail, h, d);
      FirstMarked(ds, buffer[..], Pieces(data), h);
      desc[head] := desc[head].(fs := true, ttse := true);
      assert desc[..] == ds[head := d];
    }

    method MarkLast(ptr: int, ghost data: seq<byte>, ghost h: nat)
      requires h == |Cut(frames)| && Shared(h, h) && Sendable(data) && ptr == Slot(h + Count(data) - 1)
      requires h + Count(data) <= tail + TX_RING_SIZE
      requires Written(desc[..], buffer[..], Pieces(data), h, Count(data), true, false)
      modifies desc
      ensures Shared(h, h)
      ensures Written(desc[..], buffer[..], Pieces(data), h, Count(data), true, true)
    {
      hide Core, Slot, Written;
      ghost var p := h + Count(data) - 1;
      SlotNext(p);
      FreeSlot(desc[..], buffer[..], Cut(frames), sent, tail, p);
      ghost var ds, d := desc[..], desc[ptr].(ls := true, ic := true);
      MarkKeeps(ds, buffer[..], Cut(frames), sent, tail, p, d);
      LastMarked(ds, buffer[..], Pieces(data), h);
      desc[ptr] := desc[ptr].(ls := true, ic := true);
      assert desc[..] == ds[ptr := d];
    }

    /** The last loop of transmit(): OWN is set from the last segment back to the
        first, so the engine cannot start before all is there. */
    method Publish(end: int, head: int, ghost h: nat)
      requires h <= |Cut(frames)| < h + TX_RING_SIZE && tail <= h && Shared(h, |Cut(frames)|)
      requires end == Slot(|Cut(frames)|) && head == Slot(h) && Newest(h)
      modifies this`cursor, this`sent, desc
      ensures Shared(|Cut(frames)|, |Cut(frames)|) && old(sent) <= sent
    {
      hide Core, Slot;
      var ptr := end;
      ghost var p := |Cut(frames)|;
      SlotInjective();
      while ptr != head
        invariant h <= p <= |Cut(frames)| && ptr == Slot(p) && Shared(h, p) && old(sent) <= sent
        decreases p
      {
        Dma(h, p);
        SlotNext(p);
        SlotNext(p - 1);
        ptr := (ptr - 1) % TX_RING_SIZE;
        ghost var ds := desc[..];
        PublishKeeps(ds, buffer[..], Cut(frames), sent, tail, h, p);
        desc[ptr] := desc[ptr].(own := true);
        assert desc[..] == ds[ptr := ds[ptr].(own := true)];
        p := p - 1;
      }
      NoneHeld(desc[..], buffer[..], Cut(frames), sent, tail, h);
    }

    /** The new frame is in the books, all its segments still held back. */
    ghost method Accept(frame: seq<byte>, callback: Callback, bk: seq<Callback>, h: nat, was: seq<Sent>)
      requires h == |Cut(frames)| && Shared(h, h) && Sendable(frame)
      requires h + Count(frame) <= tail + TX_RING_SIZE
      requires Written(desc[..], buffer[..], Pieces(frame), h, Count(frame), true, true)
      requires |bk| == TX_RING_SIZE && Backs(bk, frames, done) && BooksAt(was) && was <= sent
      requires back[..] == bk[Slot(h + Count(frame) - 1) := callback]
      modifies this`frames
      ensures frames == old(frames) + [Frame(frame, callback)]
      ensures |Cut(frames)| == h + Count(frame) && Shared(h, |Cut(frames)|)
      ensures Backs(back[..], frames, done) && BooksAt(was)
    {
      hide Core, Slot, Written, Backs, Cut, Pieces, Count, Completions;
      var f := Frame(frame, callback);
      CutAppend(frames, f);
      AcceptKeeps(desc[..], buffer[..], Cut(frames), sent, tail, frame);
      BacksAppend(bk, frames, f, done, tail);
      assert (frames + [f])[..done] == frames[..done];
      frames := frames + [f];
    }

    lemma BooksKept(was: seq<Sent>)
      requires BooksAt(was) && was <= sent
      ensures BooksAt(sent)
    {
      assert sent == was + sent[|was|..];
      forall f | f in frames[..done] ensures Sendable(f.data) {
        assert f in frames;
      }
      CompletionsKept(frames[..done], was, sent[|was|..]);
    }

    /** The test for room in transmit() counts the free slots but one. */
    lemma Room()
      requires Shared(|Cut(frames)|, |Cut(frames)|) && txHead == Slot(|Cut(frames)|) && Bounded()
      ensures tail <= |Cut(frames)| <= tail + TX_RING_SIZE - 1
      ensures (txTail - txHead - 1) % TX_RING_SIZE == TX_RING_SIZE - 1 - (|Cut(frames)| - tail)
    {
      hide Slot;
      RoomLeft(tail, |Cut(frames)|);
    }

    /** transmit(), once it was found that there is room. */
    method Load(frame: seq<byte>, callback: Callback)
      requires Valid() && Sendable(frame) && |Cut(frames)| + Count(frame) <= tail + TX_RING_SIZE
      requires tail <= |Cut(frames)|
      modifies this`txHead, this`cursor, this`frames, this`sent, desc, buffer, back
      ensures Sound() && old(sent) <= sent && |Cut(frames)| == old(|Cut(frames)|) + Count(frame)
      ensures frames == old(frames) + [Frame(frame, callback)]
    {
      hide Core, Slot, Written, Backs, Cut, Completions;
      ghost var h, was := |Cut(frames)|, sent;
      NewestIs(h, was);
      var head := txHead;
      var ptr := Copy(frame, h);
      Mark(head, ptr, frame, h);
      SlotNext(h + Count(frame) - 1);
      ghost var bk := back[..];
      back[ptr] := callback;
      Accept(frame, callback, bk, h, was);
      ptr := (ptr + 1) % TX_RING_SIZE;
      txHead := ptr;
      assert frames[..|frames| - 1] == old(frames);
      NewestIs(h, was);
      Publish(ptr, head, h);
      BooksKept(was);
    }

    /** transmit(): the frame is taken whole or not at all. The ring stays right exactly
        unless the frame is empty and the ring is full. */
    method Transmit(frame: seq<byte>, callback: Callback) returns (ok: bool)
      requires Valid()
      modifies this`txHead, this`overflowTx, this`cursor, this`frames, this`sent, desc, buffer, back
      ensures Sound() && old(sent) <= sent
      ensures Valid() <==> frame != [] || old(|Cut(frames)|) < tail + TX_RING_SIZE - 1
      ensures ok == (|frame| <= MTU && old(|Cut(frames)|) + Asked(frame) <= tail + TX_RING_SIZE - 1)
      ensures frames == if ok then old(frames) + [Frame(frame, callback)] else old(frames)
      // frames refused for want of room are counted
      ensures overflowTx == if ok || |frame| > MTU then old(overflowTx) else U32(old(overflowTx) + 1)
    {
      hide Core, Slot, Backs, Cut, Completions;
      if |frame| > MTU {
        return false;
      }
      Room();
      if (txTail - txHead - 1) % TX_RING_SIZE < (|frame| + SEGMENT_SIZE - 1) / SEGMENT_SIZE {
        overflowTx := U32(overflowTx + 1);
        return false;
      }
      Load(frame, callback);
      ok := true;
    }

    /** What comes of an empty frame on a full ring: every slot is in flight, and the
        indices read as those of an empty ring. */
    lemma Overfull()
      requires Sound() && !Bounded()
      ensures |Cut(frames)| == tail + TX_RING_SIZE && txHead == txTail
      ensures (txTail - txHead - 1) % TX_RING_SIZE == TX_RING_SIZE - 1
    {
      hide Core, Backs, Cut, Booked;
      InFlight(desc[..], buffer[..], Cut(frames), sent, tail, |Cut(frames)|, |Cut(frames)|);
      hide Slot;
      SlotTurn(tail);
    }

    // ----- processFrameTx()

    lemma Oldest()
      requires BooksAt(sent)
      ensures done <= |frames| && tail <= |sent| && tail <= |Cut(frames)| && (tail < |Cut(frames)| ==> done < |frames|)
      ensures done < |frames| ==>
        var data := frames[done].data;
        && Sendable(data) && tail + Count(data) <= |Cut(frames)|
        && End(frames, done) == tail + Count(data) - 1
        && forall k :: 0 <= k < Count(data) ==> Cut(frames)[tail + k] == Piece(data, k)
    {
      hide Cut, End, Piece, Count, Completions;
      OldestFrame(frames, done, tail);
    }

    /** A descriptor as it reads after more of the engine's work: what it says of position
        p, if a segment is there. */
    method Peek(at: int, ghost p: nat) returns (d: Desc)
      requires Shared(|Cut(frames)|, |Cut(frames)|) && Newest(|Cut(frames)|)
      requires at == Slot(p) && tail <= p <= |Cut(frames)|
      modifies this`cursor, this`sent, desc
      ensures Shared(|Cut(frames)|, |Cut(frames)|) && old(sent) <= sent
      ensures 0 <= at < TX_RING_SIZE && d == desc[at]
      ensures p < |Cut(frames)| ==> Holds(d, buffer[at], Cut(frames)[p]) && (d.own <==> |sent| <= p)
    {
      hide Core, Slot, Cut, Newest;
      Dma(|Cut(frames)|, |Cut(frames)|);
      SlotNext(p);
      d := desc[at];
      if p < |Cut(frames)| {
        Readable(desc[..], buffer[..], Cut(frames), sent, tail, p);
        assert desc[..][at] == desc[at] && buffer[..][at] == buffer[at];
      }
    }

    /** The search for a whole frame that was sent: `last` is its last slot. */
    method FindSent() returns (found: bool, last: int, size: nat)
      requires Valid()
      modifies this`cursor, this`sent, desc
      ensures Valid() && old(sent) <= sent
      ensures old(done < |frames| && End(frames, done) < |sent|) ==> found
      ensures found ==> done < |frames| && End(frames, done) < |sent| && last == Slot(End(frames, done))
      ensures found ==> size == |frames[done].data|
    {
      hide Core, Slot, Backs, Cut, Booked, End, Newest;
      ghost var segs, was, k := Cut(frames), sent, 0;
      NewestIs(|segs|, was);
      Oldest();
      SlotInjective();
      Room();
      hide Bounded;
      var head := txHead;
      last, size := txTail, 0;
      while true
        invariant Shared(|segs|, |segs|) && was <= sent && last == Slot(tail + k)
        invariant 0 <= k && tail + k <= |segs| && tail + k <= |sent|
        invariant done < |frames| ==> k < Count(frames[done].data)
        invariant done == |frames| ==> k == 0
        invariant size == SEGMENT_SIZE * k
        decreases |segs| - tail - k
      {
        var status := Peek(last, tail + k);
        SlotNext(tail + k);
        if last == head || status.own {
          found := false;
          BooksKept(was);
          return;
        }
        assert segs[tail + k] == Piece(frames[done].data, k);
        size := size + status.size;
        if status.ls {
          break;
        }
        last := (last + 1) % TX_RING_SIZE;
        k := k + 1;
      }
      assert k == Count(frames[done].data) - 1;
      found := true;
      BooksKept(was);
    }

    /** The frame that was sent is put together again from its segments. */
    method Assemble(end: int, ghost n: nat) returns (data: seq<byte>)
      requires Shared(|Cut(frames)|, |Cut(frames)|) && txHead == Slot(|Cut(frames)|) && BooksAt(sent)
      requires done < |frames| && End(frames, done) < |sent| && Bounded()
      requires end == Slot(End(frames, done) + 1) && n == Count(frames[done].data)
      modifies this`cursor, this`sent, desc
      ensures Shared(|Cut(frames)|, |Cut(frames)|) && BooksAt(sent) && old(sent) <= sent
      ensures data == frames[done].data
    {
      hide Core, Slot, Backs, Cut, Booked, End, Newest, Holds, Piece;
      ghost var segs, was, k, all := Cut(frames), sent, 0, frames[done].data;
      NewestIs(|segs|, was);
      Oldest();
      SlotInjective();
      Room();
      var ptr := txTail;
      data := [];
      while ptr != end
        invariant Shared(|segs|, |segs|) && was <= sent && ptr == Slot(tail + k)
        invariant 0 <= k <= n && data == all[..Min(|all|, SEGMENT_SIZE * k)]
        decreases n - k
      {
        var status := Peek(ptr, tail + k);
        SlotNext(tail + k);
        AssembledNext(all, k, status, buffer[ptr]);
        var segment := desc[ptr].size;
        data := data + buffer[ptr][..segment];
        ptr := (ptr + 1) % TX_RING_SIZE;
        k := k + 1;
      }
      BooksKept(was);
    }

    /** The tail moves behind the oldest frame, whose callback is now owed. */
    method Reclaim(end: int)
      requires Shared(|Cut(frames)|, |Cut(frames)|) && txHead == Slot(|Cut(frames)|) && BooksAt(sent) && Bounded()
      requires done < |frames| && 0 <= End(frames, done) < |sent| && end == Slot(End(frames, done) + 1)
      requires Backs(back[..], frames, done + 1)
      modifies this`txTail, this`tail, this`done
      ensures done == old(done) + 1
      ensures Owing(NewCalls(frames[old(done)], sent[End(frames, old(done))].stamp))
    {
      hide Core, Slot, Backs, Booked, End;
      BookedNext(frames, done, tail, calls, sent);
      ReclaimKeeps(desc[..], buffer[..], Cut(frames), sent, tail, End(frames, done) + 1);
      txTail := end;
      tail := End(frames, done) + 1;
      done := done + 1;
    }

    lemma NothingOwed()
      requires Owing([])
      ensures Valid()
    {
      hide Core, Slot, Backs, Cut, Booked;
      assert calls + [] == calls;
    }

    /** Whether a slot is free besides the one that stays empty. */
    method HasSlot() returns (free: bool)
      requires Valid()
      ensures free <==> |Cut(frames)| < tail + TX_RING_SIZE - 1
    {
      hide Slot, Cut;
      Room();
      free := (txTail - txHead - 1) % TX_RING_SIZE > 0;
    }

    /** What a completion callback may do: transmit any number of frames, but no empty
        one on a full ring. */
    method Transmissions()
      requires Valid()
      modifies this`txHead, this`overflowTx, this`cursor, this`frames, this`sent, desc, buffer, back
      ensures Valid() && old(sent) <= sent && old(frames) <= frames
    {
      hide Valid;
      var n: nat :| n >= 0;
      while n > 0
        invariant Valid() && old(sent) <= sent && old(frames) <= frames
      {
        var frame: seq<byte> := *;
        var b: Callback := *;
        var room := HasSlot();
        if frame != [] || room {
          var ok := Transmit(frame, b);
        }
        n := n - 1;
      }
    }

    /** The callback that is owed is invoked. */
    method Invoke(call: int, reference: int, data: seq<byte>)
      requires Owing([Completion(call, reference, data, txTime)])
      modifies this`txHead, this`overflowTx, this`cursor, this`frames, this`sent, this`calls, desc, buffer, back
      ensures Valid() && old(sent) <= sent && old(frames) <= frames
      ensures calls == old(calls) + [Completion(call, reference, data, txTime)]
    {
      Paid(Completion(call, reference, data, txTime));
      hide Valid;
      Transmissions();
    }

    ghost method Paid(c: Completion)
      requires Owing([c])
      modifies this`calls
      ensures Valid() && calls == old(calls) + [c]
    {
      hide Core, Slot, Backs, Cut, Booked;
      calls := calls + [c];
    }

    /** processFrameTx(): the oldest frame, once it was sent whole, is reclaimed
        and its callback invoked with its own bytes, argument and send time. */
    method ProcessFrameTx() returns (more: bool)
      requires Valid()
      modifies this, desc, buffer, back
      ensures Valid() && old(sent) <= sent && old(frames) <= frames
      ensures old(done < |frames| && End(frames, done) < |sent|) ==> more
      ensures done == old(done) + (if more then 1 else 0) && done <= |old(frames)|
      ensures more ==> End(old(frames), old(done)) < |sent|
      ensures more && old(frames)[old(done)].back.call == 0 ==> calls == old(calls) && frames == old(frames)
      ensures more && old(frames)[old(done)].back.call != 0 ==>
        var f := old(frames)[old(done)];
        calls == old(calls) + [Completion(f.back.call, f.back.reference, f.data, txTime)]
      ensures !more ==> calls == old(calls) && frames == old(frames)
    {
      hide Core, Slot, Backs, Cut, Booked, End;
      Oldest();
      var found, last, size := FindSent();
      if !found {
        return false;
      }
      Oldest();
      SlotNext(End(frames, done));
      var end := (last + 1) % TX_RING_SIZE;
      BackOf();
      if back[last].call == 0 {
        Reclaim(end);
        NothingOwed();
        return true;
      }
      Complete(last, end);
      more := true;
    }

    lemma BackOf()
      requires Valid() && done < |frames|
      ensures 0 <= Slot(End(frames, done)) < TX_RING_SIZE
      ensures back[Slot(End(frames, done))] == frames[done].back && Backs(back[..], frames, done + 1)
    {
      SlotNext(End(frames, done));
    }

    /** processFrameTx() for a frame with a callback. */
    method Complete(last: int, end: int)
      requires Valid() && done < |frames| && End(frames, done) < |sent| && frames[done].back.call != 0
      requires last == Slot(End(frames, done)) && end == Slot(End(frames, done) + 1)
      modifies this, desc, buffer, back
      ensures Valid() && old(sent) <= sent && old(frames) <= frames && done == old(done) + 1
      ensures var f := old(frames)[old(done)];
        calls == old(calls) + [Completion(f.back.call, f.back.reference, f.data, txTime)]
    {
      hide Core, Slot, Backs, Cut, End;
      ghost var segs, f := Cut(frames), frames[done];
      BackOf();
      Oldest();
      Room();
      BacksCleared(back[..], frames, done, tail, Callback(0, back[last].reference));
      ghost var bk := back[..];
      var callback := back[last];
      back[last] := Callback(0, callback.reference);
      assert back[..] == bk[last := Callback(0, callback.reference)];
      Readable(desc[..], buffer[..], segs, sent, tail, End(frames, done));
      assert segs[End(frames, done)] == Piece(f.data, Count(f.data) - 1);
      txTime := desc[last].stamp;
      var data := Assemble(end, Count(f.data));
      Reclaim(end);
      Invoke(callback.call, back[last].reference, data);
    }

    // ----- runs

    /** initDescriptors() */
    constructor ()
      ensures Valid() && frames == [] && sent == [] && calls == []
    {
      desc := new Desc[TX_RING_SIZE](i => Desc(false, false, false, false, false, i == TX_RING_SIZE - 1, 0, 0));
      buffer := new seq<byte>[TX_RING_SIZE](i => seq(SEGMENT_SIZE, j => 0));
      back := new Callback[TX_RING_SIZE](i => Callback(0, 0));
      txHead, txTail, txTime, overflowTx, cursor := 0, 0, 0, 0, 0;
      frames, sent, done, tail, calls := [], [], 0, 0, [];
    }

    /** The driver's books: frames accepted, frames reclaimed, callbacks invoked and
        segments sent. */
    ghost function Account(): Books
      reads this
    {
      Books(frames, done, calls, |sent|)
    }

    lemma TailIs()
      requires Valid()
      ensures done <= |frames| && tail == |Cut(frames[..done])|
    {
    }

    lemma PollIs(a: Books, ok: bool, b: Books, stamp: int)
      requires a.sent <= b.sent && (a.done < |a.frames| && End(a.frames, a.done) < a.sent ==> ok)
      requires if !ok then b == a.(sent := b.sent)
        else
          && a.done < |a.frames| && End(a.frames, a.done) < b.sent && b.done == a.done + 1
          && a.frames <= b.frames
          && (a.frames[a.done].back.call == 0 ==> b.calls == a.calls && b.frames == a.frames)
          && (a.frames[a.done].back.call != 0 ==> b.calls == a.calls + NewCalls(a.frames[a.done], stamp))
      ensures Polled(a, ok, b)
    {
      if ok {
        assert a.frames[a.done].back.call == 0 ==> b.calls + [] == b.calls;
        assert b.calls == a.calls + NewCalls(a.frames[a.done], stamp);
      }
    }

    /** One request. */
    method Answer(r: Request) returns (ok: bool)
      requires Valid()
      modifies this, desc, buffer, back
      ensures Sound() && old(sent) <= sent
      ensures Served(old(Account()), r, ok, Account())
      ensures Valid() <==> !Breaks(old(Account()), r)
    {
      hide Sound, Cut, End, Polled;
      TailIs();
      ghost var a := Account();
      match r
      case Offer(frame) =>
        ok := Transmit(frame.data, frame.back);
      case Poll =>
        ok := ProcessFrameTx();
        PollIs(a, ok, Account(), txTime);
    }

    /** Any traffic: transmissions, completions and the engine, in any order, up to the
        first request that ruins the ring. Until then the ring with its engine behaves as
        a queue of frames. */
    method Traffic(requests: seq<Request>) returns (replies: seq<bool>, ghost run: seq<Books>)
      requires Valid()
      modifies this, desc, buffer, back
      ensures Sound() && old(sent) <= sent && |replies| <= |requests|
      ensures IsRun(requests[..|replies|], replies, run)
      ensures run[0] == old(Account()) && run[|replies|] == Account()
      ensures forall i :: 0 <= i < |replies| - 1 ==> !Breaks(run[i], requests[i])
      ensures if Valid() then |replies| == |requests|
        else replies != [] && Breaks(run[|replies| - 1], requests[|replies| - 1])
    {
      hide Sound, Served, Breaks, Cut;
      replies, run := [], [Account()];
      var i := 0;
      while i < |requests|
        invariant Valid() && old(sent) <= sent && 0 <= i <= |requests| && |replies| == i
        invariant IsRun(requests[..i], replies, run) && run[0] == old(Account()) && run[i] == Account()
        invariant forall j :: 0 <= j < i ==> !Breaks(run[j], requests[j])
      {
        var free := HasSlot();
        ghost var a := Account();
        TailIs();
        BreaksIs(a, requests[i], tail);
        var ok := Answer(requests[i]);
        RunNext(requests[..i], replies, run, requests[i], ok, Account());
        assert requests[..i + 1] == requests[..i] + [requests[i]];
        replies, run := replies + [ok], run + [Account()];
        if requests[i].Offer? && requests[i].frame.data == [] && !free {
          return;
        }
        i := i + 1;
      }
    }

    lemma BreaksIs(a: Books, r: Request, tail: nat)
      requires a.done <= |a.frames| && tail == |Cut(a.frames[..a.done])|
      ensures Breaks(a, r) <==> r.Offer? && r.frame.data == [] && |Cut(a.frames)| >= tail + TX_RING_SIZE - 1
    {
    }

    /** What holds of the wire and of the callbacks in every state. */
    lemma EveryState() returns (n: nat, segs: seq<Segment>)
      requires Sound()
      ensures |segs| == |sent| && forall j :: 0 <= j < |sent| ==>
        segs[j] == sent[j].seg && sent[j].timed == segs[j].first && sent[j].interrupts == segs[j].last
      ensures done <= n <= |frames| && OnWire(segs).0 == Payloads(frames)[..n]
      ensures n < |frames| ==> OnWire(segs).1 <= frames[n].data
      ensures n == |frames| ==> OnWire(segs).1 == []
      ensures BooksAt(sent) && calls == Completions(frames[..done], sent)
    {
      hide Cut, Payloads, OnWire, Loaded, Owned, Stamped, Marked;
      segs := Cut(frames)[..|sent|];
      n := WireIsFifo(frames, segs);
      if n < |frames| {
        ReclaimedWasSent(frames, done, n, |sent|);
      }
    }
  }
}
