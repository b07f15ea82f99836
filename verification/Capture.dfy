/** Packet time stamps: the Ethernet clock's second edge is captured against the
    monotonic tick counter (clock/capture.cpp), and a packet's seconds and
    nanoseconds are turned into a tick, then into all three clocks (net.cpp). */
module Capture {
  import opened Words
  import opened ClockMono
  import opened ClockComp
  import opened ClockTai

  /** EDGE_MASK + 1: the capture registers hold 24 bits. */
  const EDGE := 0x100_0000

  /** nanosToRaw() */
  function NanosToRaw(seconds: word, nanos: word): word {
    U32(U32(seconds * CLK_FREQ) + nanos / CLK_NANOS)
  }

  /** The tick of an edge, from the counter when the interrupt is served and the
      24 bits captured. */
  function EdgeTick(raw: word, captured: word): word {
    U32(raw - U32(raw - captured) % EDGE)
  }

  /** Wrapping at 2^32 leaves the low 24 bits of a difference alone. */
  lemma LowBits(served: int, captured: int)
    ensures (U32(served) - captured) % EDGE == (served - captured) % EDGE
  {
    assert served == served / TWO32 * TWO32 + U32(served);
    assert (served - captured - (served / TWO32 * 0x100) * EDGE) % EDGE == (served - captured) % EDGE;
  }

  /** The edge is found again if the interrupt is served within 2^24 ticks. */
  lemma EdgeTickExact(edge: int, served: int, captured: word)
    requires 0 <= served - edge < EDGE && captured % EDGE == edge % EDGE
    ensures EdgeTick(U32(served), captured) == U32(edge)
  {
    hide U32;
    var q := captured / EDGE - edge / EDGE;
    assert captured == edge + q * EDGE;
    LowBits(served, captured);
    LowBits(U32(served) - captured, 0);
    SmallBits(served - edge, q);
    U32Add(served, served - edge);
  }

  lemma SmallBits(d: int, q: int)
    requires 0 <= d < EDGE
    ensures (d - q * EDGE) % EDGE == d
  {
  }

  class EthernetCapture {
    var ppsEthernetOffset: word

    /** ISR_Timer5A(): `second` is the Ethernet clock's second that begins at the
        edge. */
    method ServiceEdge(raw: word, captured: word, second: word, ghost edge: int, ghost served: int)
      requires raw == U32(served) && 0 <= served - edge < EDGE && captured % EDGE == edge % EDGE
      modifies this
      ensures ppsEthernetOffset == U32(edge - second * CLK_FREQ)
    {
      EdgeTickExact(edge, served, captured);
      var timer: word := EdgeTick(raw, captured);
      U32Add(edge, second * CLK_FREQ);
      U32Add(second * CLK_FREQ, U32(edge));
      timer := U32(timer - U32(second * CLK_FREQ));
      ppsEthernetOffset := timer;
    }

    /** The raw tick that getRxTime() and getTxTime() compute. */
    method PacketRaw(seconds: word, nanos: word) returns (raw: word)
      ensures raw == U32(ppsEthernetOffset + NanosToRaw(seconds, nanos))
    {
      raw := U32(ppsEthernetOffset + NanosToRaw(seconds, nanos));
    }

    /** rawToFull(): what the three clocks show at a tick. */
    method RawToFull(mono: MonoClock, comp: CompClock, tai: TaiClock, monoRaw: word, ghost tick: int, ghost t: int)
      returns (stamps: seq<dword>)
      requires mono.Valid() && comp.Valid() && tai.Valid()
      requires monoRaw == U32(tick) && -TWO31 <= tick - mono.seconds * CLK_FREQ < TWO31
      requires U64(t) == Stamp(tick) && InReach(comp.s, tai.a, t)
      ensures stamps == [Stamp(tick), U64(Reading(comp.s, t)), U64(TaiReading(comp.s, tai.a, t))]
    {
      var first := mono.FromRaw(monoRaw, tick);
      var second, third := tai.TwoStage(comp, first, t);
      stamps := [first, second, third];
    }
  }

  /** getTxTime() and getRxTime(): a packet stamped s seconds and nanos nanoseconds
      by the Ethernet clock gets the times of the tick it really was at. */
  method PacketTimes(cap: EthernetCapture, mono: MonoClock, comp: CompClock, tai: TaiClock, s: word, nanos: word,
                     ghost edge: int, ghost s0: word, ghost t: int) returns (stamps: seq<dword>)
    requires mono.Valid() && comp.Valid() && tai.Valid()
    requires cap.ppsEthernetOffset == U32(edge - s0 * CLK_FREQ)
    requires var tick := edge + (s - s0) * CLK_FREQ + nanos / CLK_NANOS;
      -TWO31 <= tick - mono.seconds * CLK_FREQ < TWO31 && U64(t) == Stamp(tick) && InReach(comp.s, tai.a, t)
    ensures var tick := edge + (s - s0) * CLK_FREQ + nanos / CLK_NANOS;
      stamps == [Stamp(tick), U64(Reading(comp.s, t)), U64(TaiReading(comp.s, tai.a, t))]
  {
    PacketTick(edge, s0, s, nanos, cap.ppsEthernetOffset);
    var raw := cap.PacketRaw(s, nanos);
    stamps := cap.RawToFull(mono, comp, tai, raw, edge + (s - s0) * CLK_FREQ + nanos / CLK_NANOS, t);
  }

  /** A packet stamped `nanos` nanoseconds into second s of the Ethernet clock
      lands on the tick that far from the captured edge of second s0, across any
      wraps of the counter and of the seconds' product. */
  lemma PacketTick(edge: int, s0: word, s: word, nanos: word, offset: word)
    requires offset == U32(edge - s0 * CLK_FREQ)
    ensures U32(offset + NanosToRaw(s, nanos)) == U32(edge + (s - s0) * CLK_FREQ + nanos / CLK_NANOS)
  {
    hide U32;
    var n := nanos / CLK_NANOS;
    U32Add(s * CLK_FREQ, n);
    U32Add(s * CLK_FREQ + n, offset);
    U32Add(edge - s0 * CLK_FREQ, s * CLK_FREQ + n);
  }
}
