/** The interleaved-timestamp table of ntp/ntp.cpp (the interleaved client/server mode of
    section 2 of RFC 9769): a hash table of 1024 cells that each transmit completion
    overwrites, against the history of all completions. */
module Interleave {
  import Calendar
  import opened Words

  const XLEAVE_SIZE := 1024
  const HASH_FACTOR := 0xDE9D_B139
  const MODE_CLIENT := 3
  const MODE_SERVER := 4
  const FRAME_SIZE := 90               // headers and one NTP packet
  const NTP_CLK_PREC := -27
  const NTP_UTC_OFFSET := 0x83AA_7E80_0000_0000

  /** hashXleave() */
  function Hash(addr: word): (cell: nat)
    ensures cell < XLEAVE_SIZE
  {
    U32(addr * HASH_FACTOR) / 0x40_0000
  }

  /** A TAI time of the clock in the NTP domain. */
  function NtpTime(tai: dword, utcOffset: dword): dword {
    U64(tai - utcOffset + NTP_UTC_OFFSET)
  }

  /** What the server gives out is UTC: TAI seconds since 1970 become seconds of UTC since
      1 January 1900, in 32 bits, and the fraction stays. The date, the time of day and the
      TAI offset n are any. */
  lemma NtpTimeIsUtc(t: Calendar.Date, c: Calendar.Clock, n: int, frac: word)
    requires Calendar.Valid(t)
    ensures NtpTime(U64(Calendar.TrueEpoch(t, c, n) * TWO32 + frac), U64(n * TWO32))
      == U32(Calendar.Days(t) * 86_400 + Calendar.SecondOfDay(c)) * TWO32 + frac
  {
    hide Calendar.TrueEpoch, Calendar.Days, Calendar.SecondOfDay, Calendar.Valid, U64, U32;
    var s, e := Calendar.Days(t) * 86_400 + Calendar.SecondOfDay(c), Calendar.EPOCH_1970;
    Calendar.EpochIs(t, c, n, s - e + n);
    var x: int := U32(s - e + n);
    U64Fits(x * TWO32 + frac);
    U64Add(n * TWO32, x * TWO32 + frac + NTP_UTC_OFFSET);
    WholeTurns(s, s - e + n);
    assert x * TWO32 + frac + NTP_UTC_OFFSET - n * TWO32 == (x + e - n) * TWO32 + frac;
    SecondsFirst(x + e - n, frac);
  }

  lemma WholeTurns(s: int, y: int)
    ensures U32(U32(y) + s - y) == U32(s)
  {
    U32Add(y, s - y);
  }

  lemma SecondsFirst(z: int, frac: word)
    ensures U64(z * TWO32 + frac) == U32(z) * TWO32 + frac
  {
    var q := z / TWO32;
    assert z * TWO32 + frac == U32(z) * TWO32 + frac + q * TWO64;
    U64Turns(z * TWO32 + frac, q);
    hide U32;
    U64Fits(U32(z) * TWO32 + frac);
  }

  /** A received frame: what the server looks at, and what it copies. */
  datatype Request = Request(length: nat, src: word, dst: word, mode: nat, version: nat, poll: nat,
                             orig: dword, rx: dword, tx: dword)

  /** The server's clock as runSelect() left it; `updated` is the TAI time of that. */
  datatype Status = Status(leap: nat, stratum: nat, rootDelay: word, rootDispersion: word, refId: word, updated: dword)

  /** What a reply says of the server's clock. */
  datatype Header = Header(version: nat, leap: nat, stratum: nat, poll: nat, precision: int,
                           rootDelay: word, rootDispersion: word, refId: word, refTime: dword)

  datatype Reply = Reply(length: nat, dst: word, mode: nat, header: Header, orig: dword, rx: dword, tx: dword)

  datatype Xleave = Xleave(rx: dword, tx: dword)

  datatype Option<T> = None | Some(value: T)

  // ----- the history that the table abbreviates

  /** A reply that the hardware has sent, and when, in the NTP domain. */
  datatype Completion = Completion(reply: Reply, sentAt: dword)

  /** The latest completion for any address of the cell; zeros before the first. */
  function CellOf(history: seq<Completion>, cell: nat): Xleave {
    if history == [] then Xleave(0, 0) else
      var last := history[|history| - 1];
      if Hash(last.reply.dst) == cell then Xleave(last.reply.rx, last.sentAt)
      else CellOf(history[..|history| - 1], cell)
  }

  /** The request that the server answers. */
  predicate Accepted(q: Request, address: word) {
    q.length >= FRAME_SIZE && q.dst == address && q.src != address && q.mode == MODE_CLIENT
  }

  /** The reply answers in interleaved mode. */
  predicate Interleaved(history: seq<Completion>, q: Request) {
    q.orig != 0 && q.rx != q.tx && CellOf(history, Hash(q.src)).rx == q.orig
  }

  /** Two bits hold the leap indicator, eight the stratum. */
  function Shown(q: Request, s: Status, utcOffset: dword): Header {
    Header(q.version, s.leap % 4, s.stratum % TWO8, q.poll, NTP_CLK_PREC,
           s.rootDelay, s.rootDispersion, s.refId, NtpTime(s.updated, utcOffset))
  }

  /** The reply to a request received and answered at these times. */
  function Answer(history: seq<Completion>, q: Request, header: Header, rxTime: dword, now: dword): Reply {
    if Interleaved(history, q)
    then Reply(q.length, q.src, MODE_SERVER, header, q.rx, rxTime, CellOf(history, Hash(q.src)).tx)
    else Reply(q.length, q.src, MODE_SERVER, header, q.tx, rxTime, now)
  }

  // ----- what the history guarantees

  /** The latest completion for any address of the cell. */
  predicate LatestFor(history: seq<Completion>, cell: nat, j: int) {
    && 0 <= j < |history| && Hash(history[j].reply.dst) == cell
    && forall k :: j < k < |history| ==> Hash(history[k].reply.dst) != cell
  }

  /** The cell holds the latest completion of its addresses, if there was one. */
  lemma {:induction false} CellIsLatest(history: seq<Completion>, cell: nat)
    ensures (forall j :: 0 <= j < |history| ==> Hash(history[j].reply.dst) != cell)
            ==> CellOf(history, cell) == Xleave(0, 0)
    ensures forall j :: LatestFor(history, cell, j) ==>
              CellOf(history, cell) == Xleave(history[j].reply.rx, history[j].sentAt)
    ensures (exists j :: 0 <= j < |history| && Hash(history[j].reply.dst) == cell)
            ==> exists j :: LatestFor(history, cell, j)
  {
    hide Hash;
    if history != [] {
      var n := |history| - 1;
      if Hash(history[n].reply.dst) == cell {
        assert LatestFor(history, cell, n);
      } else {
        CellIsLatest(history[..n], cell);
        forall j
          ensures LatestFor(history, cell, j) <==> LatestFor(history[..n], cell, j)
        {
        }
      }
    }
  }

  /** The hardware sent an earlier reply at this time, whose receive time was this. */
  ghost predicate Genuine(history: seq<Completion>, rx: dword, tx: dword) {
    exists j :: 0 <= j < |history| && history[j].reply.rx == rx && history[j].sentAt == tx
  }

  /** Interleaved safety, read off the packets alone: a reply that does not echo the
      request's transmit time carries the hardware send time of an earlier reply, whose
      receive time is the request's origin; whatever the hash maps together. */
  lemma AnswerIsGenuine(history: seq<Completion>, q: Request, header: Header, rxTime: dword, now: dword)
    ensures var r := Answer(history, q, header, rxTime, now);
            && r.dst == q.src && r.rx == rxTime
            && (r.orig == q.tx || r.orig == q.rx)
            && (r.orig == q.tx ==> r.tx == now)
            && (r.orig != q.tx ==> Genuine(history, q.orig, r.tx))
  {
    CellIsLatest(history, Hash(q.src));
  }

  /** Interleaved service: a request is answered in that mode exactly if it asks for it and
      its origin is the receive time of the latest reply sent to an address of its cell;
      the reply then carries the send time of that one. */
  lemma InterleavedExactly(history: seq<Completion>, q: Request, header: Header, rxTime: dword, now: dword)
    ensures
      var r := Answer(history, q, header, rxTime, now);
      var hit := q.orig != 0 && q.rx != q.tx
        && exists j :: LatestFor(history, Hash(q.src), j) && history[j].reply.rx == q.orig;
      && (r.orig != q.tx <==> hit)
      && (hit ==> r.orig == q.rx && forall j :: LatestFor(history, Hash(q.src), j) ==> r.tx == history[j].sentAt)
      && (!hit ==> r.tx == now)
  {
    hide Hash;
    CellIsLatest(history, Hash(q.src));
  }

  /** With receive times all different, the send time is that of the one reply that the
      client refers to. */
  lemma GenuineIsUnique(history: seq<Completion>, i: nat, tx: dword)
    requires i < |history| && Genuine(history, history[i].reply.rx, tx)
    requires forall j, k :: 0 <= j < k < |history| ==> history[j].reply.rx != history[k].reply.rx
    ensures tx == history[i].sentAt
  {
  }

  // ----- runs

  datatype Event =
    | Asked(q: Request, status: Status, rxTai: dword, nowTai: dword, utcOffset: dword, queued: bool)
    | Sent(tai: dword, utcOffset: dword)

  /** A reply, the request it answers, and how much the hardware had sent by then. */
  datatype Exchange = Exchange(q: Request, reply: Reply, now: dword, sent: nat)

  /** pending: the replies in the transmit ring, in order. */
  datatype State = State(pending: seq<Reply>, history: seq<Completion>, log: seq<Exchange>)

  function Next(s: State, e: Event, address: word): State {
    match e
    case Asked(q, status, rxTai, nowTai, utc, queued) =>
      if !Accepted(q, address) then s else
        var now := NtpTime(nowTai, utc);
        var r := Answer(s.history, q, Shown(q, status, utc), NtpTime(rxTai, utc), now);
        s.(log := s.log + [Exchange(q, r, now, |s.history|)],
           pending := if queued then s.pending + [r] else s.pending)
    case Sent(tai, utc) =>
      if s.pending == [] then s else
        s.(pending := s.pending[1..], history := s.history + [Completion(s.pending[0], NtpTime(tai, utc))])
  }

  function Run(events: seq<Event>, address: word): State {
    if events == [] then State([], [], [])
    else Next(Run(events[..|events| - 1], address), events[|events| - 1], address)
  }

  /** Every exchange so far is safe. */
  ghost predicate Safe(s: State) {
    forall x :: 0 <= x < |s.log| ==> SafeExchange(s.log[x], s.history)
  }

  ghost predicate SafeExchange(x: Exchange, history: seq<Completion>) {
    && x.sent <= |history|
    && x.reply.dst == x.q.src
    && (x.reply.orig == x.q.tx ==> x.reply.tx == x.now)
    && (x.reply.orig != x.q.tx ==> x.reply.orig == x.q.rx && Genuine(history[..x.sent], x.q.orig, x.reply.tx))
  }

  /** What the hardware sent, and what waits for it, was logged before. */
  ghost predicate Logged(s: State) {
    && (forall i :: 0 <= i < |s.pending| ==> InLog(s.log, s.pending[i]))
    && (forall i :: 0 <= i < |s.history| ==> InLog(s.log, s.history[i].reply))
  }

  ghost predicate InLog(log: seq<Exchange>, r: Reply) {
    exists x :: 0 <= x < |log| && log[x].reply == r
  }

  lemma InLogStays(log: seq<Exchange>, x: Exchange, r: Reply)
    ensures InLog(log, r) ==> InLog(log + [x], r)
    ensures InLog(log + [x], x.reply)
  {
    assert (log + [x])[|log|] == x;
    if y :| 0 <= y < |log| && log[y].reply == r {
      assert (log + [x])[y] == log[y];
    }
  }

  lemma NextIsSafe(s: State, e: Event, address: word)
    requires Safe(s) && Logged(s)
    ensures Safe(Next(s, e, address)) && Logged(Next(s, e, address))
  {
    hide Interleaved, Genuine, NtpTime, Answer, InLog, Shown;
    var t := Next(s, e, address);
    match e
    case Asked(q, status, rxTai, nowTai, utc, queued) =>
      if Accepted(q, address) {
        AnswerIsGenuine(s.history, q, Shown(q, status, utc), NtpTime(rxTai, utc), NtpTime(nowTai, utc));
        assert s.history[..|s.history|] == s.history;
        forall r: Reply | true ensures InLog(s.log, r) ==> InLog(t.log, r) {
          InLogStays(s.log, t.log[|s.log|], r);
        }
        InLogStays(s.log, t.log[|s.log|], t.log[|s.log|].reply);
      }
    case Sent(tai, utc) =>
      if s.pending != [] {
        forall x | 0 <= x < |s.log| ensures SafeExchange(t.log[x], t.history) {
          assert SafeExchange(s.log[x], s.history);
          assert t.history[..s.log[x].sent] == s.history[..s.log[x].sent];
        }
      }
  }

  /** In every run: a reply in interleaved mode carries the hardware send time of a
      reply that the server gave, and the hardware sent, before. */
  lemma {:induction false} EveryRunIsSafe(events: seq<Event>, address: word)
    ensures Safe(Run(events, address)) && Logged(Run(events, address))
  {
    if events != [] {
      EveryRunIsSafe(events[..|events| - 1], address);
      NextIsSafe(Run(events[..|events| - 1], address), events[|events| - 1], address);
    }
  }

  // ----- the code

  class Server {
    const ipAddress: word
    const tsXleave: array<Xleave>
    ghost var history: seq<Completion>

    ghost predicate Valid()
      reads this, tsXleave
    {
      && tsXleave.Length == XLEAVE_SIZE
      && forall c :: 0 <= c < XLEAVE_SIZE ==> tsXleave[c] == CellOf(history, c)
    }

    constructor (address: word)
      ensures Valid() && history == [] && ipAddress == address && fresh(tsXleave)
    {
      ipAddress := address;
      tsXleave := new Xleave[XLEAVE_SIZE](i => Xleave(0, 0));
      history := [];
    }

    /** ntpTxCallback() of a reply that the hardware sent at this TAI time. */
    method NtpTxCallback(packet: Reply, tai: dword, utcOffset: dword)
      requires Valid()
      modifies this, tsXleave
      ensures Valid() && history == old(history) + [Completion(packet, NtpTime(tai, utcOffset))]
    {
      hide Hash, NtpTime;
      var txTime := NtpTime(tai, utcOffset);
      var cell := Hash(packet.dst);
      tsXleave[cell] := Xleave(packet.rx, txTime);
      history := history + [Completion(packet, txTime)];
      assert history[..|history| - 1] == old(history);
    }

    /** ntpRequest(): the frame that goes to network::transmit(), if any. */
    method NtpRequest(request: Request, status: Status, rxTai: dword, nowTai: dword, utcOffset: dword)
      returns (response: Option<Reply>)
      requires Valid()
      ensures response.Some? <==>
        request.length >= 90 && request.dst == ipAddress && request.src != ipAddress && request.mode == 3
      // back to the sender as a server's reply, with the state of the clock
      ensures response.Some? ==>
        var r := response.value;
        && r.length == request.length && r.dst == request.src && r.mode == 4
        && r.header.version == request.version && r.header.poll == request.poll
        && r.header.leap == status.leap % 4 && r.header.stratum == status.stratum % 0x100
        && r.header.precision == -27 && r.header.refId == status.refId
        && r.header.rootDelay == status.rootDelay && r.header.rootDispersion == status.rootDispersion
        && r.header.refTime == NtpTime(status.updated, utcOffset)
        && r.rx == NtpTime(rxTai, utcOffset)
      ensures response.Some? <==> Accepted(request, ipAddress)
      ensures response.Some? ==>
                response.value == Answer(history, request, Shown(request, status, utcOffset),
                                         NtpTime(rxTai, utcOffset), NtpTime(nowTai, utcOffset))
    {
      hide Hash, NtpTime, CellOf;
      if request.length < FRAME_SIZE {
        return None;
      }
      if request.dst != ipAddress {
        return None;
      }
      if request.src == ipAddress {
        return None;
      }
      if request.mode != MODE_CLIENT {
        return None;
      }
      var xleave := -1;
      var orgTime := request.orig;
      if orgTime != 0 && request.rx != request.tx {
        var cell := Hash(request.src);
        if orgTime == tsXleave[cell].rx {
          xleave := cell;
        }
      }
      var rxTime := NtpTime(rxTai, utcOffset);
      var refTime := NtpTime(status.updated, utcOffset);
      var orig, tx;
      if xleave < 0 {
        orig := request.tx;
        tx := NtpTime(nowTai, utcOffset);
      } else {
        orig := request.rx;
        tx := tsXleave[xleave].tx;
      }
      var header := Header(request.version, status.leap % 4, status.stratum % TWO8, request.poll, NTP_CLK_PREC,
                           status.rootDelay, status.rootDispersion, status.refId, refTime);
      response := Some(Reply(request.length, request.src, MODE_SERVER, header, orig, rxTime, tx));
    }

    /** Requests and completions in any order, the transmit ring a queue between them. */
    method Serve(events: seq<Event>) returns (log: seq<Exchange>)
      requires Valid() && history == []
      modifies this, tsXleave
      ensures Valid() && history == Run(events, ipAddress).history && log == Run(events, ipAddress).log
      ensures forall x :: 0 <= x < |log| ==> SafeExchange(log[x], history)
    {
      hide Hash, NtpTime, CellOf, Answer, Accepted, SafeExchange, Shown;
      var pending: seq<Reply> := [];
      var sent := 0;
      log := [];
      for i := 0 to |events|
        invariant Valid() && sent == |history|
        invariant State(pending, history, log) == Run(events[..i], ipAddress)
      {
        assert events[..i + 1][..i] == events[..i];
        match events[i] {
          case Asked(q, status, rxTai, nowTai, utc, queued) =>
            var response := NtpRequest(q, status, rxTai, nowTai, utc);
            if response.Some? {
              log := log + [Exchange(q, response.value, NtpTime(nowTai, utc), sent)];
              if queued {
                pending := pending + [response.value];
              }
            }
          case Sent(tai, utc) =>
            if pending != [] {
              NtpTxCallback(pending[0], tai, utc);
              pending := pending[1..];
              sent := sent + 1;
            }
        }
      }
      assert events[..|events|] == events;
      EveryRunIsSafe(events, ipAddress);
    }
  }
}
