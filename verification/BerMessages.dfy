/** Which messages the agent of snmp/snmp.cpp takes, and what the readers of snmp/util.cpp
    make of an INTEGER, told by the bytes of the message. */
module BerMessages {
  import opened Words
  import opened Ber

  // ----- the value of an INTEGER

  lemma {:induction false} UnsignedBound(bs: seq<byte>)
    ensures 0 <= Unsigned(bs) < Power(|bs|)
  {
    if bs != [] {
      UnsignedBound(bs[..|bs| - 1]);
    }
  }

  /** The first octet weighs most. */
  lemma {:induction false} UnsignedFirst(bs: seq<byte>)
    requires bs != []
    ensures Unsigned(bs) == bs[0] * Power(|bs| - 1) + Unsigned(bs[1..])
  {
    var n := |bs| - 1;
    if n > 0 {
      UnsignedFirst(bs[..n]);
      assert bs[1..][..n - 1] == bs[..n][1..];
      assert Power(n) == Power(n - 1) * TWO8;
      assert bs[0] * Power(n) == bs[0] * Power(n - 1) * TWO8;
    } else {
      assert bs[..0] == bs[1..] == [];
    }
  }

  /** Two's complement: of k octets, the one number from -2^(8k-1) to 2^(8k-1) - 1 that has the
      residue of the octets modulo 2^(8k). */
  lemma IntegerValueIs(bs: seq<byte>, x: int)
    requires bs != []
    ensures x == IntegerValue(bs) <==>
      && 0 <= 2 * x + Power(|bs|) < 2 * Power(|bs|)
      && (x == Unsigned(bs) || x == Unsigned(bs) - Power(|bs|))
  {
    UnsignedBound(bs);
    UnsignedFirst(bs);
    UnsignedBound(bs[1..]);
    FirstDecides(bs[0], Power(|bs| - 1), Unsigned(bs[1..]));
    assert Power(|bs|) == Power(|bs| - 1) * TWO8;
    hide Power, Unsigned;
  }

  lemma FirstDecides(b: byte, p: nat, rest: nat)
    requires rest < p
    ensures 2 * (b * p + rest) >= p * TWO8 <==> b >= TWO7
  {
    Spread(b, TWO7, p);
    Spread(b, TWO7 - 1, p);
    SignOf(b - TWO7, p);
    SignOf(b - (TWO7 - 1), p);
  }

  lemma Spread(b: int, k: int, p: int)
    ensures (b - k) * p == b * p - k * p
  {
  }

  lemma SignOf(x: int, p: nat)
    ensures x >= 0 ==> x * p >= 0
    ensures x <= 0 ==> x * p <= 0
  {
  }

  // ----- what a message that is taken says

  /** The data begin with a sequence, in which stand an INTEGER of value zero, an octet
      string "status" and the tag of this kind of PDU. */
  predicate AsksForStatus(data: seq<byte>, dlen: nat, pdu: byte)
    requires dlen + 2 <= |data|
  {
    data[0] == 0x30 &&
    match ReadLength(data, 1, dlen)
    case Bad => false
    case Item(_, v) =>
      v < dlen && data[v] == 0x02 &&
      match ReadLength(data, v + 1, dlen)
      case Bad => false
      case Item(n, at) =>
        at + n < dlen && U32(IntegerValue(Content(data, at, n))) == 0 && data[at + n] == 0x04 &&
        match ReadLength(data, at + n + 1, dlen)
        case Bad => false
        case Item(k, c) =>
          && k == 6 && c + 6 <= dlen
          && data[c..c + 6] == ['s' as int, 't' as int, 'a' as int, 't' as int, 'u' as int, 's' as int]
          && data[c + 6] == pdu
  }

  /** A message that is taken asks for it; so one of another community is refused. */
  lemma TakenAsksForStatus(data: seq<byte>, before: byte, dlen: nat, pdu: byte, was: Message)
    requires dlen + 2 <= |data| && MessageAt(data, before, dlen, pdu, was).Taken?
    ensures AsksForStatus(data, dlen, pdu)
  {
    hide U32, IntegerValue, NumbersAt, ReadLength;
  }

  // ----- messages put together from their parts

  datatype Parts = Parts(version: seq<byte>, community: seq<byte>, tag: byte,
                         id: seq<byte>, status: seq<byte>, index: seq<byte>, list: seq<byte>)

  predicate Short(content: seq<byte>) {
    0 < |content| < TWO7
  }

  /** The contents of four INTEGERs, a community of up to 127 octets and a list of any size. */
  predicate Encodable(m: Parts) {
    && Short(m.version) && Short(m.id) && Short(m.status) && Short(m.index)
    && |m.community| < TWO7 && |m.list| < VARS_MAX
  }

  function Numbers(m: Parts): seq<byte>
    requires Encodable(m)
  {
    Tlv(INTEGER, m.id) + Tlv(INTEGER, m.status) + Tlv(INTEGER, m.index)
  }

  function Pdu(m: Parts): (p: seq<byte>)
    requires Encodable(m)
    ensures |p| < VARS_MAX + 600
  {
    Numbers(m) + Tlv(SEQUENCE, m.list)
  }

  function Contents(m: Parts): (c: seq<byte>)
    requires Encodable(m)
    ensures |c| < VARS_MAX + 1000
  {
    Tlv(INTEGER, m.version) + Tlv(OCTETS, m.community) + Tlv(m.tag, Pdu(m))
  }

  function Composed(m: Parts): seq<byte>
    requires Encodable(m)
  {
    Tlv(SEQUENCE, Contents(m))
  }

  lemma ReadsBackPart(data: seq<byte>, at: nat, content: seq<byte>, dlen: nat, room: nat)
    requires |content| < TWO7 && At(data, at, Tlv(OCTETS, content))
    requires dlen <= |data| && at + 2 + |content| <= dlen
    ensures BytesAt(data, at, dlen, room) ==
      Item(content[..if room > |content| then |content| else room], at + 2 + |content|)
  {
    AtTlv(data, at, OCTETS, content);
    ReadsBackLengthExactly(data, at + 1, |content|, dlen);
    hide Length, Tlv;
    Beginning(data, at + 2, content, if room > |content| then |content| else room);
  }

  lemma Beginning(data: seq<byte>, at: nat, content: seq<byte>, n: nat)
    requires At(data, at, content) && n <= |content|
    ensures data[at..at + n] == content[..n]
  {
    assert data[at..at + |content|][..n] == data[at..at + n];
  }

  /** The version and the community decide whether the PDU is looked at. */
  lemma HeaderReadsBack(m: Parts, data: seq<byte>, dlen: nat)
    requires Encodable(m) && At(data, 0, Composed(m)) && dlen == |Composed(m)| && dlen + 2 <= |data|
    ensures HeaderAt(data, dlen) ==
      if |Contents(m)| < TWO16 && U32(IntegerValue(m.version)) == 0 && m.community == STATUS
      then Item(|Contents(m)|, dlen - |Tlv(m.tag, Pdu(m))|) else Bad
    ensures At(data, dlen - |Tlv(m.tag, Pdu(m))|, Tlv(m.tag, Pdu(m)))
  {
    hide Tlv, At, Length, U32, IntegerValue, Int32At, BytesAt, Opened, Pdu;
    var v, c, p, body := Tlv(INTEGER, m.version), Tlv(OCTETS, m.community), Tlv(m.tag, Pdu(m)), Contents(m);
    OpensExactly(data, 0, SEQUENCE, body, dlen);
    AtTlv(data, 0, SEQUENCE, body);
    TlvLength(SEQUENCE, body);
    var at := dlen - |body|;
    assert body == v + c + p;
    AtBoth(data, at, v + c, p);
    AtBoth(data, at, v, c);
    ShortSize(INTEGER, m.version);
    ShortSize(OCTETS, m.community);
    ReadsBackInteger(data, at, m.version, dlen);
    ReadsBackPart(data, at + |v|, m.community, dlen, 16);
    assert m.community[..|m.community|] == m.community;
  }

  lemma ShortSize(tag: byte, content: seq<byte>)
    requires |content| < TWO7
    ensures |Tlv(tag, content)| == 2 + |content|
  {
    ShortTlv(tag, content);
  }

  lemma NumbersGiven(m: Parts, rest: seq<byte>, data: seq<byte>, at: nat, dlen: nat, was: Message)
    requires Encodable(m) && At(data, at, Numbers(m) + rest)
    requires dlen + 2 <= |data| && at + |Numbers(m)| <= dlen
    ensures NumbersAt(data, at, dlen, was) ==
      (Message(U32(IntegerValue(m.id)), U32(IntegerValue(m.status)), U32(IntegerValue(m.index))), at + |Numbers(m)|)
    ensures At(data, at + |Numbers(m)|, rest)
  {
    hide Tlv, Int32At, At, IntegerValue, U32;
    var a, b, c := Tlv(INTEGER, m.id), Tlv(INTEGER, m.status), Tlv(INTEGER, m.index);
    AtBoth(data, at, a + b + c, rest);
    AtBoth(data, at, a + b, c);
    AtBoth(data, at, a, b);
    ShortSize(INTEGER, m.id);
    ShortSize(INTEGER, m.status);
    ShortSize(INTEGER, m.index);
    ReadsBackInteger(data, at, m.id, dlen);
    ReadsBackInteger(data, at + |a|, m.status, dlen);
    ReadsBackInteger(data, at + |a| + |b|, m.index, dlen);
  }

  lemma PduGiven(m: Parts, data: seq<byte>, before: byte, at: nat, dlen: nat, pdu: byte, slen: nat, was: Message)
    requires Encodable(m) && At(data, at, Tlv(m.tag, Pdu(m)))
    requires dlen + 2 <= |data| && at + |Tlv(m.tag, Pdu(m))| == dlen && |Pdu(m)| < TWO16
    ensures PduAt(data, before, at, dlen, pdu, slen, was) ==
      if m.tag != pdu then Refused
      else Taken(Message(U32(IntegerValue(m.id)), U32(IntegerValue(m.status)), U32(IntegerValue(m.index))),
                 dlen - |m.list|)
    ensures At(data, dlen - |m.list|, m.list)
  {
    hide Tlv, At, NumbersAt, Opened, U32, IntegerValue, Numbers, Length;
    var body := Pdu(m);
    var p := dlen - |body|;
    OpensExactly(data, at, m.tag, body, dlen);
    AtTlv(data, at, m.tag, body);
    TlvLength(m.tag, body);
    TlvLength(SEQUENCE, m.list);
    NumbersGiven(m, Tlv(SEQUENCE, m.list), data, p, dlen, was);
    var q := p + |Numbers(m)|;
    OpensExactly(data, q, SEQUENCE, m.list, dlen);
    AtTlv(data, q, SEQUENCE, m.list);
    if m.tag == pdu {
      LooselyToo(data, before, at, dlen, pdu, slen);
      LooselyToo(data, before, q, dlen, SEQUENCE, |body|);
    }
  }

  /** Who is answered: a message put together from its parts is taken if and only if its
      length takes at most two octets, its version is zero modulo 2^32, its community is
      "status" and its PDU is of the kind asked for; its numbers and the place of its list
      are then found. */
  lemma TakenExactly(m: Parts, before: byte, after: seq<byte>, pdu: byte, was: Message)
    requires Encodable(m) && |after| >= 2
    ensures
      var s := Composed(m);
      MessageAt(s + after, before, |s|, pdu, was) ==
        if |Contents(m)| < TWO16 && U32(IntegerValue(m.version)) == 0 && m.community == STATUS && m.tag == pdu
        then Taken(Message(U32(IntegerValue(m.id)), U32(IntegerValue(m.status)), U32(IntegerValue(m.index))),
                   |s| - |m.list|)
        else Refused
    ensures var s := Composed(m); |m.list| <= |s| && s[|s| - |m.list|..] == m.list
  {
    hide Composed, Tlv, Pdu, HeaderAt, PduAt, U32, IntegerValue;
    var s := Composed(m);
    var data := s + after;
    Sizes(m);
    HeaderReadsBack(m, data, |s|);
    var at := |s| - |Tlv(m.tag, Pdu(m))|;
    if |Contents(m)| < TWO16 {
      PduGiven(m, data, before, at, |s|, pdu, |Contents(m)|, was);
    }
    ListLast(m);
  }

  lemma Sizes(m: Parts)
    requires Encodable(m)
    ensures |Pdu(m)| < |Tlv(m.tag, Pdu(m))| < |Contents(m)| < |Composed(m)|
  {
    hide Length;
  }

  lemma ListLast(m: Parts)
    requires Encodable(m)
    ensures var s := Composed(m); |m.list| <= |s| && s[|s| - |m.list|..] == m.list
  {
    hide Length;
  }
}
