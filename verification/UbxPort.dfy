/** The GPS port of gps.cpp: its interrupt, sendUBX() and runParse() on the rings and the
    message buffer, and processUBX() with what its handlers make of the time. */
module UbxPort {
  import Calendar
  import opened Words
  import opened Nmea
  import opened Ubx
  import opened GpsRing

  /** Each frame handed over went to processUBX(). */
  predicate Handled(handled: seq<Handler>, out: seq<seq<byte>>) {
    && |handled| == |out|
    && forall i :: 0 <= i < |out| ==> |out[i]| >= 8 && handled[i] == Process(out[i])
  }

  /** What a frame tells the calendar, if anything. */
  function MessagesIn(f: seq<byte>): seq<Calendar.Message> {
    if !Whole(f) then []
    else
      match Process(f)
      case Pvt(payload) => [Calendar.PvtData(payload[..92])]
      case GpsTime(payload) => [Calendar.GpsTimeData(payload[..16])]
      case _ => []
  }

  function Heard(out: seq<seq<byte>>): seq<Calendar.Message> {
    if out == [] then [] else Heard(out[..|out| - 1]) + MessagesIn(out[|out| - 1])
  }

  lemma HeardNext(out: seq<seq<byte>>, f: seq<byte>)
    ensures Heard(out + [f]) == Heard(out) + MessagesIn(f)
  {
    assert (out + [f])[..|out|] == out;
  }

  /** A printed message tells the calendar its payload, if it is one of those two. */
  lemma TellsPayload(cls: byte, id: byte, payload: seq<byte>)
    requires |payload| < TWO16
    ensures MessagesIn(Print(cls, id, payload)) ==
      if cls == 0x01 && id == 0x07 && |payload| == 92 then [Calendar.PvtData(payload)]
      else if cls == 0x01 && id == 0x20 && |payload| == 16 then [Calendar.GpsTimeData(payload)]
      else []
  {
    hide Print, Process, Accepts;
    PrintIsAccepted(cls, id, payload);
    DispatchExactly(cls, id, payload);
  }

  class GpsPort {
    const time: Calendar.GpsTime
    const rxBuff: array<byte>
    const txBuff: array<byte>
    const msgBuff: array<byte>        // and the byte behind it
    var rxHead: int
    var rxTail: int
    var txHead: int
    var txTail: int
    var lenNEMA: nat
    var lenUBX: nat
    var endUBX: nat
    var hasNema: bool
    ghost var out: seq<seq<byte>>     // frames handed to processUBX()
    ghost var wire: seq<byte>         // bytes given to the UART
    var handled: seq<Handler>         // what processUBX() made of the frames

    ghost predicate Valid()
      reads this
    {
      && rxBuff.Length == GPS_RING_SIZE && txBuff.Length == GPS_RING_SIZE && msgBuff.Length == MAX_LENGTH + 1
      && rxBuff != txBuff && rxBuff != msgBuff && txBuff != msgBuff
      && Index(rxHead) && Index(rxTail) && Index(txHead) && Index(txTail) && lenNEMA <= MAX_LENGTH
      && (lenUBX > 0 ==> endUBX >= 8) && Handled(handled, out)
    }

    ghost function AsParser(): (p: Parser)
      requires Valid()
      reads this, msgBuff
      ensures Proper(p)
    {
      Parser(msgBuff[..], lenNEMA, lenUBX, endUBX, out, hasNema)
    }

    ghost function Received(): seq<byte>
      requires Valid()
      reads this, rxBuff
    {
      Queue(rxBuff[..], rxTail, rxHead)
    }

    ghost function Pending(): seq<byte>
      requires Valid()
      reads this, txBuff
    {
      Queue(txBuff[..], txTail, txHead)
    }

    /** The time is what the frames handed over make of it, and the parser is where the
        length of the message under way says. */
    ghost predicate Timed()
      requires Valid()
      reads this, msgBuff, time
    {
      Counting(AsParser()) && Following()
    }

    ghost predicate Following()
      reads this`out, time
    {
      Calendar.Follows(Heard(out), 37, time.taiOffset, time.taiEpoch)
    }

    constructor ()
      ensures Valid() && Timed() && fresh(rxBuff) && fresh(txBuff) && fresh(msgBuff) && fresh(time)
      ensures lenUBX == 0 && out == [] && wire == [] && Received() == [] && Pending() == []
    {
      rxBuff := new byte[GPS_RING_SIZE];
      txBuff := new byte[GPS_RING_SIZE];
      msgBuff := new byte[MAX_LENGTH + 1];
      rxHead, rxTail, txHead, txTail := 0, 0, 0, 0;
      lenNEMA, lenUBX, endUBX, hasNema := 0, 0, 0, false;
      out, wire, handled := [], [], [];
      time := new Calendar.GpsTime();
      new;
      Calendar.NothingHeard(37, time.taiEpoch);
    }

    /** ISR_UART3(), receiving: the bytes of the FIFO go into the ring, whether it has
        room or not. `tail` is as far as the parser has read. */
    method Receive(bytes: seq<byte>, ghost tail: int)
      requires Valid() && Index(tail)
      modifies this`rxHead, rxBuff
      ensures Valid()
      ensures Queue(rxBuff[..], tail, rxHead) == Kept(old(Queue(rxBuff[..], tail, rxHead)) + bytes)
    {
      hide Queue, Kept;
      var head := rxHead;
      ghost var was := Queue(rxBuff[..], tail, head);
      KeptExactly(was);
      assert was + bytes[..0] == was;
      for i := 0 to |bytes|
        invariant Index(head) && Queue(rxBuff[..], tail, head) == Kept(was + bytes[..i])
      {
        QueuePut(rxBuff[..], tail, head, bytes[i], was + bytes[..i]);
        ghost var buf := rxBuff[..];
        rxBuff[head] := bytes[i];
        assert rxBuff[..] == buf[head := bytes[i]];
        head := (head + 1) % GPS_RING_SIZE;
        assert was + bytes[..i + 1] == was + bytes[..i] + [bytes[i]];
      }
      rxHead := head;
      assert bytes[..|bytes|] == bytes;
    }

    /** While a message is put into the transmit ring: the wire was w when sendUBX() began
        and q bytes were pending. */
    ghost predicate Sending(tail: int, head: int, text: seq<byte>, w: seq<byte>, q: nat)
      reads this, txBuff
    {
      Valid() && w <= wire && Loading(txBuff[..], tail, head, txHead, text, wire[|w|..], q)
    }

    /** The loop of ISR_UART3() and of startTx(): bytes go to the UART while it takes them,
        up to the head that sendUBX() has stored. */
    method Drain(ghost head: int, ghost text: seq<byte>, ghost w: seq<byte>, ghost q: nat)
      requires Sending(txTail, head, text, w, q)
      modifies this`txTail, this`wire
      ensures Sending(txTail, head, text, w, q) && old(wire) <= wire
    {
      hide Loading, Handled;
      var tail := txTail;
      var taken: nat :| taken >= 0;
      while taken > 0 && tail != txHead
        invariant Sending(tail, head, text, w, q) && Index(tail) && old(wire) <= wire
        decreases taken
      {
        LoadingTake(txBuff[..], tail, head, txHead, text, wire[|w|..], q);
        assert (wire + [txBuff[tail]])[|w|..] == wire[|w|..] + [txBuff[tail]];
        wire := wire + [txBuff[tail]];
        tail := (tail + 1) % GPS_RING_SIZE;
        taken := taken - 1;
      }
      txTail := tail;
    }

    /** One byte appended to the transmit ring, after any work of the interrupt. */
    method Put(head: int, x: byte, ghost text: seq<byte>, ghost w: seq<byte>, ghost q: nat) returns (next: int)
      requires Sending(txTail, head, text, w, q)
      modifies this`txTail, this`wire, txBuff
      ensures Sending(txTail, next, text + [x], w, q)
    {
      hide Loading, Handled;
      Drain(head, text, w, q);
      LoadingPut(txBuff[..], txTail, head, txHead, text, wire[|w|..], q, x);
      ghost var buf := txBuff[..];
      txBuff[head] := x;
      assert txBuff[..] == buf[head := x];
      next := (head + 1) % GPS_RING_SIZE;
    }

    /** One byte appended and added to the checksum. */
    method PutSummed(head: int, x: byte, c: Check, ghost text: seq<byte>, ghost body: seq<byte>,
                     ghost w: seq<byte>, ghost q: nat)
      returns (next: int, d: Check)
      requires Sending(txTail, head, text, w, q) && c == Fletcher(body)
      modifies this`txTail, this`wire, txBuff
      ensures Sending(txTail, next, text + [x], w, q) && d == Fletcher(body + [x])
    {
      hide Sending;
      next := Put(head, x, text, w, q);
      FletcherNext(body, x);
      d := Fold(c, x);
    }

    /** sendUBX() up to the payload: preamble, class, identifier and length. */
    method PutHeader(cls: byte, id: byte, size: nat, ghost was: seq<byte>, ghost w: seq<byte>)
      returns (head: int, c: Check)
      requires Sending(txTail, txHead, was, w, |was|) && size < TWO16
      modifies this`txTail, this`wire, txBuff
      ensures c == Fletcher([cls, id, size % TWO8, size / TWO8])
      ensures Sending(txTail, head, was + [SYNC1, SYNC2] + [cls, id, size % TWO8, size / TWO8], w, |was|)
    {
      hide Sending, Fletcher;
      ghost var q := |was|;
      head := Put(txHead, SYNC1, was, w, q);
      head := Put(head, SYNC2, was + [SYNC1], w, q);
      ghost var text := was + [SYNC1] + [SYNC2];
      FletcherEmpty();
      head, c := PutSummed(head, cls, Check(0, 0), text, [], w, q);
      head, c := PutSummed(head, id, c, text + [cls], [] + [cls], w, q);
      ghost var body := [] + [cls] + [id];
      text := text + [cls] + [id];
      head, c := PutSummed(head, size % TWO8, c, text, body, w, q);
      head, c := PutSummed(head, size / TWO8, c, text + [size % TWO8], body + [size % TWO8], w, q);
      assert body + [size % TWO8] + [size / TWO8] == [cls, id, size % TWO8, size / TWO8];
      assert text + [size % TWO8] + [size / TWO8] == was + [SYNC1, SYNC2] + [cls, id, size % TWO8, size / TWO8];
    }

    /** sendUBX(), the payload. */
    method PutPayload(start: int, payload: seq<byte>, sum: Check, ghost text: seq<byte>, ghost body: seq<byte>,
                      ghost w: seq<byte>, ghost q: nat)
      returns (head: int, c: Check)
      requires Sending(txTail, start, text, w, q) && sum == Fletcher(body)
      modifies this`txTail, this`wire, txBuff
      ensures Sending(txTail, head, text + payload, w, q) && c == Fletcher(body + payload)
    {
      hide Sending, Fletcher;
      head, c := start, sum;
      assert text + payload[..0] == text && body + payload[..0] == body;
      for i := 0 to |payload|
        invariant c == Fletcher(body + payload[..i])
        invariant Sending(txTail, head, text + payload[..i], w, q)
      {
        head, c := PutSummed(head, payload[i], c, text + payload[..i], body + payload[..i], w, q);
        assert text + payload[..i] + [payload[i]] == text + payload[..i + 1];
        assert body + payload[..i] + [payload[i]] == body + payload[..i + 1];
      }
      assert payload[..|payload|] == payload;
    }

    /** sendUBX(), with the interrupt at any point: the message goes behind what is still to
        be sent, as far as the ring keeps it; `taken` is what the interrupt took meanwhile.
        Too long a message is not sent at all. */
    method SendUBX(cls: byte, id: byte, payload: seq<byte>) returns (ghost taken: seq<byte>)
      requires Valid()
      modifies this`txHead, this`txTail, this`wire, txBuff
      ensures Valid()
      ensures |payload| > MAX_PAYLOAD ==> wire == old(wire) && Pending() == old(Pending())
      ensures |payload| <= MAX_PAYLOAD ==>
        var text := old(Pending()) + Print(cls, id, payload);
        && |taken| <= |old(Pending())| && Echoes(taken, text)
        && wire + Pending() == old(wire) + taken + Kept(text[|taken|..])
      // with room nothing is lost or out of order
      ensures |payload| <= MAX_PAYLOAD && |old(Pending())| + |Print(cls, id, payload)| < GPS_RING_SIZE ==>
        wire + Pending() == old(wire + Pending()) + Print(cls, id, payload)
    {
      hide Queue, Kept, Print, Sending, Echoes;
      taken := [];
      if |payload| > MAX_PAYLOAD {
        return;
      }
      ghost var was, w := Pending(), wire;
      ghost var text := was + Print(cls, id, payload);
      Begin();
      var head := PutMessage(cls, id, payload, was, w);
      Drain(head, text, w, |was|);
      taken := End(head, text, w, |was|);
      txHead := head;
      StartTx();
      AllFits(w, was, taken, text);
    }

    /** All of the message, by the local head. */
    method PutMessage(cls: byte, id: byte, payload: seq<byte>, ghost was: seq<byte>, ghost w: seq<byte>)
      returns (head: int)
      requires Sending(txTail, txHead, was, w, |was|) && |payload| < TWO16
      modifies this`txTail, this`wire, txBuff
      ensures Sending(txTail, head, was + Print(cls, id, payload), w, |was|)
    {
      hide Fletcher, Sending;
      ghost var n := |payload|;
      ghost var front := [cls, id, n % TWO8, n / TWO8];
      var c;
      head, c := PutHeader(cls, id, |payload|, was, w);
      head, c := PutPayload(head, payload, c, was + [SYNC1, SYNC2] + front, front, w, |was|);
      ghost var text := was + [SYNC1, SYNC2] + front + payload;
      head := Put(head, c.a, text, w, |was|);
      head := Put(head, c.b, text + [c.a], w, |was|);
      assert text + [c.a] + [c.b] == was + Print(cls, id, payload);
    }

    lemma Begin()
      requires Valid()
      ensures Sending(txTail, txHead, Pending(), wire, |Pending()|)
    {
      QueueWraps(txBuff[..], txTail, txHead);
      QueueBounds(txBuff[..], txTail, txHead);
      assert Pending()[0..] == Pending();
    }

    /** What has been taken, and what the ring is about to read as. */
    lemma End(head: int, text: seq<byte>, w: seq<byte>, q: nat) returns (taken: seq<byte>)
      requires Sending(txTail, head, text, w, q)
      ensures Valid() && |taken| <= q <= |text| && Echoes(taken, text) && wire == w + taken
      ensures Index(head) && Queue(txBuff[..], txTail, head) == Kept(text[|taken|..])
    {
      hide Wraps, Echoes, Latest;
      taken := wire[|w|..];
      WrapsQueue(txBuff[..], txTail, text[|taken|..]);
    }

    lemma AllFits(w: seq<byte>, was: seq<byte>, taken: seq<byte>, text: seq<byte>)
      requires was <= text && |taken| <= |was| && Echoes(taken, text)
      ensures |text| < GPS_RING_SIZE ==> w + taken + Kept(text[|taken|..]) == w + was + text[|was|..]
    {
      if |text| < GPS_RING_SIZE {
        EchoesFit(taken, text);
        KeptExactly(text[|taken|..]);
        assert text[..|taken|] + text[|taken|..] == text == was + text[|was|..];
      }
    }

    lemma FletcherEmpty()
      ensures Fletcher([]) == Check(0, 0)
    {
    }

    /** startTx(), with the interrupt masked, and the transmitting part of ISR_UART3() at
        any other time. */
    method StartTx()
      requires Valid()
      modifies this`txTail, this`wire
      ensures Valid() && wire + Pending() == old(wire + Pending())
    {
      hide Queue, Kept, Sending, Echoes;
      ghost var text, w := Pending(), wire;
      Begin();
      Drain(txHead, text, w, |text|);
      ghost var taken := End(txHead, text, w, |text|);
      QueueBounds(txBuff[..], old(txTail), txHead);
      AllFits(w, text, taken, text);
      assert text[|text|..] == [] && w + text + [] == w + text;
    }

    /** The turn of the loop of runParse() for one byte. */
    method ParseByte(x: byte)
      requires Valid() && Timed()
      modifies this`lenNEMA, this`lenUBX, this`endUBX, this`out, this`handled, this`hasNema, msgBuff, time
      ensures Valid() && Timed() && AsParser() == Feed(old(AsParser()), x)
    {
      hide Counts, Process, Following;
      if lenUBX > 0 {
        ParseUbx(x);
        return;
      }
      if lenNEMA > 0 {
        ParseNema(x);
      }
      if x == DOLLAR {
        msgBuff[0] := x;
        lenNEMA := 1;
        return;
      }
      if x == SYNC1 {
        lenNEMA := 0;
        msgBuff[0] := x;
        lenUBX := 1;
        endUBX := 8;
      }
    }

    /** A whole frame goes to processUBX(), and from there to its handler. */
    method HandOver(len: nat)
      requires msgBuff.Length == MAX_LENGTH + 1 && 8 <= len <= MAX_LENGTH && Handled(handled, out)
      requires Whole(msgBuff[..len]) && Following()
      modifies this`out, this`handled, time
      ensures out == old(out) + [msgBuff[..len]] && Handled(handled, out) && Following()
    {
      hide Process, Heard, Calendar.Follows;
      ghost var f: seq<byte> := msgBuff[..len];
      HeardNext(out, f);
      ProcessedWhole(f);
      var handler := ProcessUbx(msgBuff, len);
      match handler {
        case Pvt(payload) => time.Hear(Calendar.PvtData(payload[..92]), Heard(out), 37);
        case GpsTime(payload) => time.Hear(Calendar.GpsTimeData(payload[..16]), Heard(out), 37);
        case _ => assert Heard(out) + [] == Heard(out);
      }
      handled := handled + [handler];
      out := out + [f];
    }

    /** The payload that a handler gets from a whole frame is long enough for it. */
    lemma ProcessedWhole(f: seq<byte>)
      requires Whole(f)
      ensures Process(f).Pvt? ==> |Process(f).payload| == 94
      ensures Process(f).GpsTime? ==> |Process(f).payload| == 18
    {
      hide Accepts;
    }

    /** A byte of an NMEA line. The zero behind a line that fills the buffer goes into the
        byte behind the buffer. */
    method ParseNema(x: byte)
      requires Valid() && lenNEMA > 0
      modifies this`lenNEMA, this`hasNema, msgBuff
      ensures Valid() && AsParser() == FeedNmea(old(AsParser()), x)
    {
      hide Counts, Process;
      if lenNEMA < MAX_LENGTH {
        msgBuff[lenNEMA] := x;
        lenNEMA := lenNEMA + 1;
      }
      if x == 13 || x == 10 {
        msgBuff[lenNEMA] := 0;
        var counts := ProcessNema(msgBuff, lenNEMA - 1);
        if counts {
          hasNema := true;
        }
        lenNEMA := 0;
      }
    }

    method ParseUbx(x: byte)
      requires Valid() && lenUBX > 0 && Timed()
      modifies this`lenUBX, this`endUBX, this`out, this`handled, msgBuff, time
      ensures Valid() && Timed() && AsParser() == FeedUbx(old(AsParser()), x)
    {
      hide Following, Whole;
      ghost var p := AsParser();
      WholeAtEnd(p, x);
      if lenUBX < MAX_LENGTH {
        msgBuff[lenUBX] := x;
      }
      assert msgBuff[..] == p.msg[lenUBX := x];
      lenUBX := lenUBX + 1;
      if lenUBX >= endUBX {
        lenUBX := Capped(lenUBX);
        HandOver(lenUBX);
        lenUBX := 0;
        endUBX := 0;
        return;
      }
      if lenUBX == 6 {
        endUBX := 8 + msgBuff[4] + TWO8 * msgBuff[5];
        if endUBX > MAX_LENGTH {
          lenUBX := 0;
        }
        return;
      }
      if lenUBX == 2 && msgBuff[1] != SYNC2 {
        lenUBX := 0;
      }
    }

    /** The byte that ends a message makes it a whole one. */
    lemma WholeAtEnd(p: Parser, x: byte)
      requires Proper(p) && Counting(p) && p.lenUbx > 0
      ensures p.lenUbx + 1 >= p.endUbx ==> Whole(p.msg[p.lenUbx := x][..p.lenUbx + 1])
    {
    }

    /** A turn of the loop of runParse(). */
    method Turn(tail: int) returns (next: int)
      requires Valid() && Timed() && Index(tail) && tail != rxHead
      modifies this`lenNEMA, this`lenUBX, this`endUBX, this`out, this`handled, this`hasNema, msgBuff, time
      ensures Valid() && Timed() && Index(next)
      ensures var q := old(Queue(rxBuff[..], tail, rxHead));
        q != [] && Queue(rxBuff[..], next, rxHead) == q[1..] && AsParser() == Feed(old(AsParser()), q[0])
    {
      hide Queue, Feed, Handled, Timed;
      QueuePop(rxBuff[..], tail, rxHead);
      var x := rxBuff[tail];
      next := (tail + 1) % GPS_RING_SIZE;
      ParseByte(x);
    }

    /** runParse(): bytes may arrive before each turn, and all that the ring keeps are
        parsed. */
    method RunParse(bursts: seq<seq<byte>>) returns (used: nat, ghost eaten: seq<byte>)
      requires Valid() && Timed()
      modifies this`rxHead, this`rxTail, this`lenNEMA, this`lenUBX, this`endUBX
      modifies this`out, this`handled, this`hasNema, rxBuff, msgBuff, time
      ensures Valid() && Timed() && Received() == []
      ensures eaten == Drained(old(Received()), bursts) && used == Used(old(Received()), bursts)
      ensures AsParser() == Feeds(old(AsParser()), eaten)
      // the byte behind the message buffer
      ensures msgBuff[MAX_LENGTH] == if Spills(old(AsParser()), eaten) then 0 else old(msgBuff[MAX_LENGTH])
    {
      hide Queue, Kept, Feed, Feeds, Handled, Drained, Used, Fill, Place, Counting, Following;
      var tail, turn := rxTail, 0;
      ghost var p, left, all := AsParser(), Received(), Drained(Received(), bursts);
      eaten := [];
      NothingFed(p);
      DrainedAlong(left, bursts, eaten);
      ghost var n := Used(left, bursts);
      while true
        invariant Valid() && Timed() && Index(tail) && 0 <= turn <= |bursts|
        invariant Queue(rxBuff[..], tail, rxHead) == left && eaten + Drained(left, bursts[turn..]) == all
        invariant AsParser() == Feeds(p, eaten) && turn + Used(left, bursts[turn..]) == n
        decreases |bursts| - turn, |left|
      {
        TurnIs(left, bursts, turn, eaten);
        if turn < |bursts| {
          Receive(bursts[turn], tail);
          turn := turn + 1;
        }
        ghost var now := Queue(rxBuff[..], tail, rxHead);
        QueueBounds(rxBuff[..], tail, rxHead);
        if tail == rxHead {
          break;
        }
        tail := Turn(tail);
        FeedsNext(p, eaten, now[0]);
        eaten, left := eaten + [now[0]], now[1..];
      }
      rxTail := tail;
      used := turn;
      BehindIs(p, eaten);
      hide Spills;
    }

    /** runParse() as often as it is woken: with room for all of them, all bytes are parsed,
        however they come. */
    method ParseAll(bursts: seq<seq<byte>>)
      requires Valid() && Timed() && |Received()| + |Flatten(bursts)| < GPS_RING_SIZE
      modifies this`rxHead, this`rxTail, this`lenNEMA, this`lenUBX, this`endUBX
      modifies this`out, this`handled, this`hasNema, rxBuff, msgBuff, time
      ensures Valid() && Timed() && Received() == []
      ensures AsParser() == Feeds(old(AsParser()), old(Received()) + Flatten(bursts))
    {
      hide Queue, Feeds, Handled, Drained, Used, Spills, HasRoom, Flatten, Timed;
      ghost var p, all := AsParser(), Received() + Flatten(bursts);
      ghost var n := TakesAll(Received(), bursts);
      ghost var eaten;
      var used;
      used, eaten := RunParse(bursts);
      var rest := bursts[used..];
      while rest != []
        invariant Valid() && Timed() && Received() == [] && |Flatten(rest)| < GPS_RING_SIZE
        invariant eaten + Flatten(rest) == all && AsParser() == Feeds(p, eaten)
        decreases |rest|
      {
        n := TakesAll([], rest);
        ghost var more;
        used, more := RunParse(rest);
        FeedsInChunks(p, eaten, more);
        assert eaten + more + Flatten(rest[used..]) == eaten + ([] + Flatten(rest));
        eaten, rest := eaten + more, rest[used..];
      }
      NoneYet(rest);
      assert rest[..0] == rest && eaten + [] == eaten;
    }

    /** What has been sent goes out. */
    method Flush()
      requires Valid()
      modifies this`txTail, this`wire
      ensures Valid() && Pending() == [] && wire == old(wire + Pending())
    {
      hide Handled, Queue, Fill, Place;
      QueueBounds(txBuff[..], txTail, txHead);
      ghost var all := wire + Pending();
      while txTail != txHead
        invariant Valid() && wire + Pending() == all
        decreases |Pending()|
      {
        QueuePop(txBuff[..], txTail, txHead);
        ghost var q := Pending();
        assert wire + q == wire + [q[0]] + q[1..];
        wire := wire + [txBuff[txTail]];
        txTail := (txTail + 1) % GPS_RING_SIZE;
      }
      QueueBounds(txBuff[..], txTail, txHead);
      assert wire + [] == wire;
    }
  }

  ghost predicate Apart(a: GpsPort, b: GpsPort) {
    a != b && {a.rxBuff, a.txBuff, a.msgBuff} !! {b.rxBuff, b.txBuff, b.msgBuff}
  }

  /** From one port to another: with room in both rings, a message sent by sendUBX() is
      handed over once and whole by the other's parser and passes its checksum test, behind
      whatever was under way, as long as that does not end inside a UBX message. The bytes
      may come in any bursts. A GPS time message that announces leap seconds sets the other
      side's offset by them, and a position message its epoch, which is the true one for
      the leap seconds heard before it exactly if the date is in range. */
  method Link(from: GpsPort, to: GpsPort, cls: byte, id: byte, payload: seq<byte>, bursts: seq<seq<byte>>)
    requires Apart(from, to) && from.Valid() && to.Valid() && to.Timed()
    requires |payload| <= MAX_PAYLOAD && Flatten(bursts) == from.Pending() + Print(cls, id, payload)
    requires |to.Received()| + |Flatten(bursts)| < GPS_RING_SIZE
    requires Feeds(to.AsParser(), to.Received() + from.Pending()).lenUbx == 0
    modifies from, from.txBuff, to, to.rxBuff, to.msgBuff, to.time
    ensures from.Valid() && to.Valid() && to.Timed() && from.Pending() == [] && to.Received() == []
    ensures from.wire == old(from.wire) + Flatten(bursts)
    ensures to.out == Feeds(old(to.AsParser()), old(to.Received() + from.Pending())).out + [Print(cls, id, payload)]
    ensures to.lenUBX == 0 && to.lenNEMA == 0
    ensures Accepts(Print(cls, id, payload))
    ensures |to.handled| == |to.out| && to.handled[|to.out| - 1] == Process(Print(cls, id, payload))
    ensures cls == 0x01 && id == 0x20 && |payload| == 16 ==>
      forall leap :: Calendar.Announces(payload, leap) ==> to.time.taiOffset == leap + 19
    ensures cls == 0x01 && id == 0x07 && |payload| == 92 && Calendar.Tells(payload) ==>
      var before := Heard(Feeds(old(to.AsParser()), old(to.Received() + from.Pending())).out);
      && (forall leap :: Calendar.LastLeap(before, leap) ==>
        TellsEpoch(payload, leap + 19, to.time.taiEpoch))
      && (Calendar.Silent(before) ==> TellsEpoch(payload, 37, to.time.taiEpoch))
  {
    hide Feeds, Print, Queue, Flatten, Process, Accepts, GpsPort.Timed, Calendar.Announces, Calendar.Tells;
    hide Calendar.LastLeap, Calendar.Silent, TellsEpoch;
    ghost var p, before := to.AsParser(), to.Received() + from.Pending();
    ghost var message := Print(cls, id, payload);
    PrintIsAccepted(cls, id, payload);
    assert to.Received() + Flatten(bursts) == before + message;
    ghost var taken := from.SendUBX(cls, id, payload);
    from.Flush();
    to.ParseAll(bursts);
    FeedsInChunks(p, before, message);
    RoundTrip(Feeds(p, before), cls, id, payload);
    LastTold(to, Feeds(p, before).out, cls, id, payload);
  }

  /** The epoch is the one that the date and time tell, exactly if the date is in range. */
  predicate TellsEpoch(payload: seq<byte>, taiOffset: int, taiEpoch: word)
    requires |payload| == 92 && Calendar.Tells(payload)
  {
    var t, c := Calendar.DateOf(payload), Calendar.TimeOf(payload);
    taiEpoch == Calendar.TrueEpoch(t, c, taiOffset) <==> Calendar.InRange(t)
  }

  /** What a printed message tells when it is the last one handed over. */
  lemma LastTold(to: GpsPort, out: seq<seq<byte>>, cls: byte, id: byte, payload: seq<byte>)
    requires to.Valid() && to.Timed() && |payload| < TWO16 && to.out == out + [Print(cls, id, payload)]
    ensures cls == 0x01 && id == 0x20 && |payload| == 16 ==>
      forall leap :: Calendar.Announces(payload, leap) ==> to.time.taiOffset == leap + 19
    ensures cls == 0x01 && id == 0x07 && |payload| == 92 && Calendar.Tells(payload) ==>
      && (forall leap :: Calendar.LastLeap(Heard(out), leap) ==> TellsEpoch(payload, leap + 19, to.time.taiEpoch))
      && (Calendar.Silent(Heard(out)) ==> TellsEpoch(payload, 37, to.time.taiEpoch))
  {
    hide Print, Heard, TellsEpoch, Calendar.Tells, Calendar.LastLeap, Calendar.Silent, Calendar.Announces;
    HeardNext(out, Print(cls, id, payload));
    TellsPayload(cls, id, payload);
    if cls == 0x01 && id == 0x20 && |payload| == 16 {
      LastLeapTold(Heard(out), payload, 37, to.time.taiOffset, to.time.taiEpoch);
    }
    if cls == 0x01 && id == 0x07 && |payload| == 92 && Calendar.Tells(payload) {
      LastDateTold(Heard(out), payload, 37, to.time.taiOffset, to.time.taiEpoch);
    }
  }

  lemma LastLeapTold(seen: seq<Calendar.Message>, payload: seq<byte>, start: int, taiOffset: int, taiEpoch: word)
    requires |payload| == 16
    requires Calendar.Follows(seen + [Calendar.GpsTimeData(payload)], start, taiOffset, taiEpoch)
    ensures forall leap :: Calendar.Announces(payload, leap) ==> taiOffset == leap + 19
  {
    hide Calendar.Announces, Calendar.LastLeap, Calendar.Silent, Calendar.LastDate, Calendar.Told;
    var m := Calendar.GpsTimeData(payload);
    Calendar.LeapAfter(seen, m);
    Calendar.OneOrNone(m);
    forall leap | Calendar.Announces(payload, leap)
      ensures taiOffset == leap + 19
    {
      assert m.Speaks() && Calendar.LastLeap(seen + [m], leap);
    }
  }

  lemma LastDateTold(seen: seq<Calendar.Message>, payload: seq<byte>, start: int, taiOffset: int, taiEpoch: word)
    requires |payload| == 92 && Calendar.Tells(payload)
    requires Calendar.Follows(seen + [Calendar.PvtData(payload)], start, taiOffset, taiEpoch)
    ensures forall leap :: Calendar.LastLeap(seen, leap) ==> TellsEpoch(payload, leap + 19, taiEpoch)
    ensures Calendar.Silent(seen) ==> TellsEpoch(payload, start, taiEpoch)
  {
    hide Calendar.Tells, Calendar.LastLeap, Calendar.Silent, Calendar.LastDate;
    hide Calendar.TrueEpoch, Calendar.InRange, Calendar.DateOf, Calendar.TimeOf;
    var m := Calendar.PvtData(payload);
    Calendar.TellsDates(m);
    Calendar.DateAfter(seen, m);
    assert (seen + [m])[..|seen|] == seen && (seen + [m])[|seen|] == m;
    assert Calendar.LastDate(seen + [m], |seen|);
    forall leap | Calendar.LastLeap(seen, leap)
      ensures TellsEpoch(payload, leap + 19, taiEpoch)
    {
      assert Calendar.LastLeap((seen + [m])[..|seen|], leap);
    }
  }
}
