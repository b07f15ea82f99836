/** The BER codec of snmp/util.cpp (sections 8.1.3, 8.3 and 8.7 of X.690) and the
    response of section 4.1 of RFC 1157 that wrapVars() builds with it. */
module Ber {
  import opened Words

  // ----- the encoding rules

  /** The digits of n to the base 256, most significant first. */
  function Digits(n: nat): seq<byte> {
    if n == 0 then [] else Digits(n / TWO8) + [n % TWO8]
  }

  /** The definite form of a length in the fewest octets. */
  function Length(n: nat): (ls: seq<byte>)
    requires n < TWO31
    ensures 1 <= |ls| <= 5
  {
    if n < TWO7 then [n] else
      DigitsFit(n);
      [TWO7 + |Digits(n)|] + Digits(n)
  }

  lemma DigitsNext(n: nat, k: nat)
    requires n >= 1 && |Digits(n / TWO8)| == k
    ensures |Digits(n)| == k + 1 && Digits(n) == Digits(n / TWO8) + [n % TWO8]
  {
  }

  lemma DigitsFit(n: nat)
    requires n < TWO31
    ensures n < TWO8 ==> Digits(n) == if n == 0 then [] else [n]
    ensures TWO8 <= n < TWO16 ==> Digits(n) == [n / TWO8, n % TWO8]
    ensures TWO16 <= n < TWO16 * TWO8 ==> Digits(n) == [n / TWO16, n / TWO8 % TWO8, n % TWO8]
    ensures TWO16 * TWO8 <= n ==>
              Digits(n) == [n / TWO16 / TWO8, n / TWO16 % TWO8, n / TWO8 % TWO8, n % TWO8]
    decreases n
  {
    if n < TWO8 {
      assert n > 0 ==> Digits(n / TWO8) == [];
    } else {
      DigitsFit(n / TWO8);
      Quotients(n);
      DigitsNext(n, |Digits(n / TWO8)|);
    }
  }

  lemma Quotients(n: nat)
    ensures n / TWO8 / TWO8 == n / TWO16
    ensures n / TWO8 / TWO16 == n / TWO16 / TWO8
  {
  }

  /** The definite forms of X.690, sections 8.1.3.4 and 8.1.3.5: one octet up to 127, or else the
      number of the octets of the length and those, most significant first. */
  lemma LengthForms(n: nat)
    requires n < TWO31
    ensures n < 0x80 ==> Length(n) == [n]
    ensures 0x80 <= n < 0x100 ==> Length(n) == [0x81, n]
    ensures 0x100 <= n < 0x1_0000 ==> Length(n) == [0x82, n / 0x100, n % 0x100]
    ensures 0x1_0000 <= n < 0x100_0000 ==> Length(n) == [0x83, n / 0x1_0000, n / 0x100 % 0x100, n % 0x100]
    ensures 0x100_0000 <= n ==>
      Length(n) == [0x84, n / 0x1_0000 / 0x100, n / 0x1_0000 % 0x100, n / 0x100 % 0x100, n % 0x100]
  {
    DigitsFit(n);
    hide Digits;
  }

  /** A tag, a length and the content. */
  function Tlv(tag: byte, content: seq<byte>): (t: seq<byte>)
    requires |content| < TWO31
    ensures |content| < |t| <= |content| + 6
  {
    [tag] + Length(|content|) + content
  }

  /** The number of n octets, most significant first. */
  function Unsigned(bs: seq<byte>): nat {
    if bs == [] then 0 else Unsigned(bs[..|bs| - 1]) * TWO8 + bs[|bs| - 1]
  }

  function Power(n: nat): nat {
    if n == 0 then 1 else Power(n - 1) * TWO8
  }

  function Signed(bs: seq<byte>, negative: bool): int {
    Unsigned(bs) - if negative then Power(|bs|) else 0
  }

  /** The value of the contents octets of an INTEGER. */
  function IntegerValue(bs: seq<byte>): int
    requires |bs| > 0
  {
    Signed(bs, bs[0] >= TWO7)
  }

  const INTEGER: byte := 0x02
  const OCTETS: byte := 0x04
  const SEQUENCE: byte := 0x30
  const GET_REQUEST: byte := 0xA0
  const GET_RESPONSE: byte := 0xA2
  const STATUS: seq<byte> := [0x73, 0x74, 0x61, 0x74, 0x75, 0x73]

  /** The four octets of a word, most significant first. */
  function WordOctets(w: word): (bs: seq<byte>)
    ensures |bs| == 4
  {
    [w / TWO16 / TWO8, w / TWO16 % TWO8, w / TWO8 % TWO8, w % TWO8]
  }

  function Bindings(vars: seq<byte>): seq<byte>
    requires |vars| < TWO31
  {
    Tlv(SEQUENCE, vars)
  }

  const VARS_MAX := 0x1000_0000

  function PduBody(id: word, vars: seq<byte>): seq<byte>
    requires |vars| < TWO31
  {
    Tlv(INTEGER, WordOctets(id)) + Tlv(INTEGER, [0]) + Tlv(INTEGER, [0]) + Bindings(vars)
  }

  function MessageBody(id: word, vars: seq<byte>): seq<byte>
    requires |vars| < VARS_MAX
  {
    Tlv(INTEGER, [0]) + Tlv(OCTETS, STATUS) + Tlv(GET_RESPONSE, PduBody(id, vars))
  }

  /** The response message with the given bindings. */
  function Response(id: word, vars: seq<byte>): seq<byte>
    requires |vars| < VARS_MAX
  {
    Tlv(SEQUENCE, MessageBody(id, vars))
  }

  // ----- writing

  function LengthSize(len: int): (n: nat)
    ensures 1 <= n <= 5
  {
    if len < TWO7 then 1
    else if len < TWO8 then 2
    else if len < TWO16 then 3
    else if len < TWO16 * TWO8 then 4
    else 5
  }

  /** lengthSize() foretells how much writeLength() writes. */
  lemma LengthSizeIs(len: nat)
    requires len < TWO31
    ensures LengthSize(len) == |Length(len)|
  {
    DigitsFit(len);
  }

  /** A buffer with some bytes written over. */
  function Over(s: seq<byte>, at: nat, bs: seq<byte>): (t: seq<byte>)
    requires at + |bs| <= |s|
    ensures |t| == |s|
  {
    seq(|s|, i requires 0 <= i < |s| => if at <= i < at + |bs| then bs[i - at] else s[i])
  }

  lemma OverTwice(s: seq<byte>, at: nat, a: seq<byte>, b: seq<byte>)
    requires at + |a| + |b| <= |s|
    ensures Over(Over(s, at, a), at + |a|, b) == Over(s, at, a + b)
  {
  }

  method Put(dst: array<byte>, at: nat, b: byte) returns (n: nat)
    requires at < dst.Length
    modifies dst
    ensures n == 1 && dst[..] == Over(old(dst[..]), at, [b])
  {
    dst[at] := b;
    n := 1;
  }

  /** writeLength() */
  method WriteLength(dst: array<byte>, at: nat, len: nat) returns (n: nat)
    requires len < TWO31 && at + LengthSize(len) <= dst.Length
    modifies dst
    ensures n == |Length(len)| == LengthSize(len)
    ensures dst[..] == Over(old(dst[..]), at, Length(len))
  {
    LengthForms(len);
    LengthSizeIs(len);
    hide Length;
    if len < TWO7 {
      dst[at] := len;
      return 1;
    }
    if len < TWO8 {
      dst[at], dst[at + 1] := 0x81, len;
      return 2;
    }
    if len < TWO16 {
      dst[at], dst[at + 1], dst[at + 2] := 0x82, len / TWO8, len % TWO8;
      return 3;
    }
    if len < TWO16 * TWO8 {
      dst[at], dst[at + 1], dst[at + 2], dst[at + 3] := 0x83, len / TWO16, len / TWO8 % TWO8, len % TWO8;
      return 4;
    }
    dst[at], dst[at + 1] := 0x84, len / TWO16 / TWO8;
    dst[at + 2], dst[at + 3], dst[at + 4] := len / TWO16 % TWO8, len / TWO8 % TWO8, len % TWO8;
    return 5;
  }

  function Reversed(bs: seq<byte>): (r: seq<byte>)
    ensures |r| == |bs|
  {
    if bs == [] then [] else [bs[|bs| - 1]] + Reversed(bs[..|bs| - 1])
  }

  lemma {:induction false} ReversedAt(bs: seq<byte>, k: nat)
    requires k < |bs|
    ensures Reversed(bs)[k] == bs[|bs| - 1 - k]
  {
    if k > 0 {
      ReversedAt(bs[..|bs| - 1], k - 1);
    }
  }

  lemma ReversedTwice(bs: seq<byte>)
    ensures Reversed(Reversed(bs)) == bs
  {
    forall k | 0 <= k < |bs| ensures Reversed(Reversed(bs))[k] == bs[k] {
      ReversedAt(Reversed(bs), k);
      ReversedAt(bs, |bs| - 1 - k);
    }
  }

  lemma ReversedStart(value: seq<byte>)
    requires |value| < TWO7
    ensures Tlv(INTEGER, Reversed(value)) == [INTEGER] + [|value|] + Reversed(value[..|value|])
  {
    assert value[..|value|] == value;
    ShortTlv(INTEGER, Reversed(value));
  }

  lemma ReversedNext(done: seq<byte>, bs: seq<byte>, k: nat)
    requires k < |bs|
    ensures done + Reversed(bs[..k + 1]) == done + [bs[k]] + Reversed(bs[..k])
  {
    assert bs[..k + 1][..k] == bs[..k];
  }

  lemma ReversedEnd(done: seq<byte>, bs: seq<byte>)
    ensures done + Reversed(bs[..0]) == done
  {
  }

  /** writeInteger() of a value as it lies in memory, least significant octet first. */
  method WriteInteger(dst: array<byte>, at: nat, value: seq<byte>) returns (n: nat)
    requires 0 < |value| < TWO7 && at + 2 + |value| <= dst.Length
    modifies dst
    ensures n == 2 + |value|
    ensures dst[..] == Over(old(dst[..]), at, Tlv(INTEGER, Reversed(value)))
  {
    hide Over, Tlv, Length, Reversed;
    ghost var was: seq<byte> := dst[..];
    ghost var done: seq<byte> := [INTEGER];
    n := Put(dst, at, INTEGER);
    var size := |value|;
    var k := Put(dst, at + n, size);
    n := n + k;
    OverTwice(was, at, done, [size]);
    done := done + [size];
    ReversedStart(value);
    size := size - 1;
    while size >= 0
      invariant -1 <= size < |value| && n == 2 + |value| - 1 - size == |done|
      invariant dst[..] == Over(was, at, done)
      invariant Tlv(INTEGER, Reversed(value)) == done + Reversed(value[..size + 1])
    {
      k := Put(dst, at + n, value[size]);
      n := n + k;
      OverTwice(was, at, done, [value[size]]);
      ReversedNext(done, value, size);
      done := done + [value[size]];
      size := size - 1;
    }
    ReversedEnd(done, value);
  }

  /** Copying octets, as memcpy() and the loop of writeBytes() do. */
  method Copy(dst: array<byte>, at: nat, bs: seq<byte>) returns (n: nat)
    requires at + |bs| <= dst.Length
    modifies dst
    ensures n == |bs|
    ensures dst[..] == Over(old(dst[..]), at, bs)
  {
    ghost var was: seq<byte> := dst[..];
    n := 0;
    while n < |bs|
      invariant 0 <= n <= |bs|
      invariant dst[..] == Over(was, at, bs[..n])
    {
      dst[at + n] := bs[n];
      n := n + 1;
    }
  }

  /** writeBytes() */
  method WriteBytes(dst: array<byte>, at: nat, value: seq<byte>) returns (n: nat)
    requires |value| < TWO31 && at + |Tlv(OCTETS, value)| <= dst.Length
    modifies dst
    ensures n == |Tlv(OCTETS, value)|
    ensures dst[..] == Over(old(dst[..]), at, Tlv(OCTETS, value))
  {
    LengthSizeIs(|value|);
    hide Over, Length, LengthSize;
    ghost var was: seq<byte> := dst[..];
    n := Put(dst, at, OCTETS);
    var k := WriteLength(dst, at + n, |value|);
    n := n + k;
    OverTwice(was, at, [OCTETS], Length(|value|));
    k := Copy(dst, at + n, value);
    n := n + k;
    OverTwice(was, at, [OCTETS] + Length(|value|), value);
  }

  const RESP_HEAD: seq<byte> :=
    [0x02, 0x01, 0x00, 0x04, 0x06, 0x73, 0x74, 0x61, 0x74, 0x75, 0x73, 0xA2]
  const RESP_ERR: seq<byte> := [0x02, 0x01, 0x00, 0x02, 0x01, 0x00]

  function BodyLength(len: nat): nat {
    len + 1 + LengthSize(len) + 6 + 6
  }

  function TotalLength(len: nat): nat {
    BodyLength(len) + LengthSize(BodyLength(len)) + 12
  }

  lemma ShortTlv(tag: byte, content: seq<byte>)
    requires |content| < TWO7
    ensures Tlv(tag, content) == [tag, |content|] + content
  {
  }

  /** The items of the PDU, and the length that wrapVars() computes for them. */
  lemma BodyItems(id: word, vars: seq<byte>)
    requires |vars| < VARS_MAX
    ensures PduBody(id, vars) ==
            Tlv(INTEGER, WordOctets(id)) + RESP_ERR + ([SEQUENCE] + Length(|vars|) + vars)
    ensures |PduBody(id, vars)| == BodyLength(|vars|)
  {
    LengthSizeIs(|vars|);
    hide Length, LengthSize;
    ShortTlv(INTEGER, [0]);
    ShortTlv(INTEGER, WordOctets(id));
    assert RESP_ERR == Tlv(INTEGER, [0]) + Tlv(INTEGER, [0]);
  }

  /** The items of the message, and the length that wrapVars() computes for them. */
  lemma MessageItems(id: word, vars: seq<byte>)
    requires |vars| < VARS_MAX
    ensures MessageBody(id, vars) == RESP_HEAD + Length(BodyLength(|vars|)) + PduBody(id, vars)
    ensures |MessageBody(id, vars)| == TotalLength(|vars|)
  {
    BodyItems(id, vars);
    LengthSizeIs(BodyLength(|vars|));
    HeadItems();
    var pdu := PduBody(id, vars);
    assert Tlv(GET_RESPONSE, pdu) == [GET_RESPONSE] + Length(|pdu|) + pdu;
    hide Length, LengthSize, PduBody, Tlv;
    Regroup(Tlv(INTEGER, [0]), Tlv(OCTETS, STATUS), [GET_RESPONSE], Length(|pdu|), pdu);
  }

  lemma HeadItems()
    ensures RESP_HEAD == Tlv(INTEGER, [0]) + Tlv(OCTETS, STATUS) + [GET_RESPONSE]
    ensures |Tlv(INTEGER, [0])| == 3 && |Tlv(OCTETS, STATUS)| == 8
  {
    ShortTlv(INTEGER, [0]);
    ShortTlv(OCTETS, STATUS);
  }

  /** What wrapVars() writes before the PDU's items. */
  function Head(tlen: nat, rlen: nat): seq<byte>
    requires tlen < TWO31 && rlen < TWO31
  {
    [SEQUENCE] + Length(tlen) + RESP_HEAD + Length(rlen)
  }

  lemma Regroup(a: seq<byte>, b: seq<byte>, c: seq<byte>, d: seq<byte>, e: seq<byte>)
    ensures a + b + (c + d + e) == a + b + c + d + e
  {
  }

  lemma ResponseIs(id: word, vars: seq<byte>)
    requires |vars| < VARS_MAX
    ensures Response(id, vars) == Head(TotalLength(|vars|), BodyLength(|vars|)) + PduBody(id, vars)
  {
    MessageItems(id, vars);
    hide Length, LengthSize, MessageBody, PduBody, TotalLength, BodyLength;
    Regroup([SEQUENCE], Length(TotalLength(|vars|)), RESP_HEAD, Length(BodyLength(|vars|)), PduBody(id, vars));
  }

  /** wrapVars() up to the length of the PDU. */
  method WrapHead(dst: array<byte>, tlen: nat, rlen: nat) returns (n: nat)
    requires tlen < TWO31 && rlen < TWO31 && |Head(tlen, rlen)| <= dst.Length
    modifies dst
    ensures n == |Head(tlen, rlen)|
    ensures dst[..] == Over(old(dst[..]), 0, Head(tlen, rlen))
  {
    hide Length, LengthSize, Over;
    LengthSizeIs(tlen);
    LengthSizeIs(rlen);
    ghost var was: seq<byte> := dst[..];
    n := Put(dst, 0, SEQUENCE);
    var k := WriteLength(dst, n, tlen);
    n := n + k;
    OverTwice(was, 0, [SEQUENCE], Length(tlen));
    k := Copy(dst, n, RESP_HEAD);
    n := n + k;
    OverTwice(was, 0, [SEQUENCE] + Length(tlen), RESP_HEAD);
    k := WriteLength(dst, n, rlen);
    n := n + k;
    OverTwice(was, 0, [SEQUENCE] + Length(tlen) + RESP_HEAD, Length(rlen));
  }

  lemma BodyInOrder(id: word, vars: seq<byte>)
    requires |vars| < VARS_MAX
    ensures PduBody(id, vars) ==
            Tlv(INTEGER, WordOctets(id)) + RESP_ERR + [SEQUENCE] + Length(|vars|) + vars
    ensures |Tlv(INTEGER, WordOctets(id))| == 6 && LengthSize(|vars|) == |Length(|vars|)|
    ensures Reversed(Reversed(WordOctets(id))) == WordOctets(id) && |WordOctets(id)| == 4
  {
    BodyItems(id, vars);
    LengthSizeIs(|vars|);
    ReversedTwice(WordOctets(id));
    ShortTlv(INTEGER, WordOctets(id));
    hide Length, LengthSize, Tlv, PduBody;
    Regroup(Tlv(INTEGER, WordOctets(id)), RESP_ERR, [SEQUENCE], Length(|vars|), vars);
  }

  /** The rest of wrapVars(). */
  method WrapBody(dst: array<byte>, at: nat, id: word, vars: seq<byte>) returns (n: nat)
    requires |vars| < VARS_MAX && at + |PduBody(id, vars)| <= dst.Length
    modifies dst
    ensures n == |PduBody(id, vars)|
    ensures dst[..] == Over(old(dst[..]), at, PduBody(id, vars))
  {
    hide Length, LengthSize, Over, Tlv, PduBody, Reversed, WordOctets, Bindings;
    ghost var idTlv: seq<byte>, size: seq<byte> := Tlv(INTEGER, WordOctets(id)), Length(|vars|);
    BodyInOrder(id, vars);
    ghost var was: seq<byte> := dst[..];
    n := WriteInteger(dst, at, Reversed(WordOctets(id)));
    var k := Copy(dst, at + n, RESP_ERR);
    n := n + k;
    OverTwice(was, at, idTlv, RESP_ERR);
    k := Put(dst, at + n, SEQUENCE);
    n := n + k;
    OverTwice(was, at, idTlv + RESP_ERR, [SEQUENCE]);
    k := WriteLength(dst, at + n, |vars|);
    n := n + k;
    OverTwice(was, at, idTlv + RESP_ERR + [SEQUENCE], size);
    k := Copy(dst, at + n, vars);
    n := n + k;
    OverTwice(was, at, idTlv + RESP_ERR + [SEQUENCE] + size, vars);
  }

  lemma LengthsAhead(len: nat, rlen: nat, tlen: nat)
    requires len < VARS_MAX && rlen == len + 1 + LengthSize(len) + 6 + 2 + 4
    requires tlen == rlen + LengthSize(rlen) + 12
    ensures rlen == BodyLength(len) < TWO31 && tlen == TotalLength(len) < TWO31
  {
  }

  /** wrapVars() */
  method WrapVars(id: word, dst: array<byte>, vars: seq<byte>) returns (n: nat)
    requires |vars| < VARS_MAX && |Response(id, vars)| <= dst.Length
    modifies dst
    ensures n == |Response(id, vars)|
    ensures dst[..] == Over(old(dst[..]), 0, Response(id, vars))
  {
    hide Head, PduBody, MessageBody, Response, Over, Length, LengthSize, BodyLength, TotalLength;
    ghost var was: seq<byte> := dst[..];
    var tlen := |vars|;
    tlen := tlen + 1 + LengthSize(|vars|);
    tlen := tlen + |RESP_ERR|;
    tlen := tlen + 2 + 4;
    var rlen := tlen;
    tlen := tlen + LengthSize(tlen);
    tlen := tlen + |RESP_HEAD|;
    LengthsAhead(|vars|, rlen, tlen);
    ResponseIs(id, vars);
    n := WrapHead(dst, tlen, rlen);
    var k := WrapBody(dst, n, id, vars);
    OverTwice(was, 0, Head(tlen, rlen), PduBody(id, vars));
    n := n + k;
  }

  // ----- reading

  /** What a reader returns: nothing, or a value and the offset after it. */
  datatype Item<T> = Bad | Item(value: T, next: nat)

  /** readLength(). The long forms also ask for an octet after the length. */
  function ReadLength(data: seq<byte>, offset: int, dlen: nat): (r: Item<nat>)
    requires dlen <= |data|
    ensures r.Item? ==> 0 <= offset < r.next <= dlen && r.value < TWO16
  {
    if offset < 0 || offset >= dlen then Bad
    else if data[offset] < TWO7 then Item(data[offset], offset + 1)
    else if data[offset] == 0x81 then
      if offset + 2 >= dlen then Bad else Item(data[offset + 1], offset + 2)
    else if data[offset] == 0x82 then
      if offset + 3 >= dlen then Bad else Item(TWO8 * data[offset + 1] + data[offset + 2], offset + 3)
    else Bad
  }

  /** The data hold these bytes at this place. */
  predicate At(data: seq<byte>, at: nat, bs: seq<byte>) {
    at + |bs| <= |data| && data[at..at + |bs|] == bs
  }

  lemma AtBoth(data: seq<byte>, at: nat, a: seq<byte>, b: seq<byte>)
    requires At(data, at, a + b)
    ensures At(data, at, a) && At(data, at + |a|, b)
  {
    assert data[at..at + |a|] == (a + b)[..|a|];
    assert data[at + |a|..at + |a| + |b|] == (a + b)[|a|..];
  }

  /** readLength() reads back what writeLength() wrote exactly when the length takes
      at most two octets and, in the long form, something follows it. */
  lemma ReadsBackLengthExactly(data: seq<byte>, at: nat, n: nat, dlen: nat)
    requires n < TWO31 && At(data, at, Length(n)) && at + |Length(n)| <= dlen <= |data|
    ensures ReadLength(data, at, dlen) ==
            if n < TWO7 || (n < TWO16 && at + |Length(n)| < dlen) then Item(n, at + |Length(n)|) else Bad
  {
    DigitsFit(n);
    var ls := Length(n);
    hide Digits;
    forall i | 0 <= i < |ls| ensures ls[i] == data[at + i] {
      assert data[at..at + |ls|][i] == data[at + i];
    }
    assert ls[0] == if n < TWO7 then n else TWO7 + |ls| - 1;
  }

  /** The octets that readInt32() takes as the content: of an empty one, the two that
      follow it. */
  function Content(data: seq<byte>, at: nat, blen: nat): (bs: seq<byte>)
    requires at + blen + 2 <= |data|
    ensures |bs| > 0
  {
    if blen == 0 then data[at..at + 2] else data[at..at + blen]
  }

  /** The 32-bit integer that readInt32() is to read. */
  function Int32At(data: seq<byte>, offset: int, dlen: nat): (r: Item<word>)
    requires dlen + 2 <= |data|
    ensures r.Item? ==> offset < r.next <= dlen
  {
    if offset < 0 || offset >= dlen || data[offset] != INTEGER then Bad else
      match ReadLength(data, offset + 1, dlen)
      case Bad => Bad
      case Item(blen, next) =>
        if next + blen > dlen then Bad
        else Item(U32(IntegerValue(Content(data, next, blen))), next + blen)
  }

  /** Two more octets in network order. */
  lemma SignedNext(bs: seq<byte>, k: nat, negative: bool)
    requires k + 2 <= |bs|
    ensures Signed(bs[..k + 2], negative) == Signed(bs[..k], negative) * TWO16 + (TWO8 * bs[k] + bs[k + 1])
  {
    assert bs[..k + 2][..k + 1] == bs[..k + 1] && bs[..k + 1][..k] == bs[..k];
    assert Unsigned(bs[..k + 1]) == Unsigned(bs[..k]) * TWO8 + bs[k];
    assert Unsigned(bs[..k + 2]) == Unsigned(bs[..k + 1]) * TWO8 + bs[k + 1];
    assert Power(k + 2) == Power(k + 1) * TWO8 && Power(k + 1) == Power(k) * TWO8;
  }

  /** From four octets on, the sign does not show in 32 bits. */
  lemma {:induction false} SignLost(bs: seq<byte>)
    requires |bs| >= 4
    ensures U32(Signed(bs, true)) == U32(Signed(bs, false))
  {
    PowerTurns(|bs|);
    var q := Power(|bs|) / TWO32;
    assert Signed(bs, true) == Signed(bs, false) - q * TWO32;
    U32Turns(Signed(bs, false), q);
  }

  lemma {:induction false} PowerTurns(n: nat)
    requires n >= 4
    ensures Power(n) % TWO32 == 0
    decreases n
  {
    if n == 4 {
      assert Power(4) == Power(3) * TWO8 && Power(3) == Power(2) * TWO8 && Power(2) == Power(1) * TWO8;
    } else {
      PowerTurns(n - 1);
      var q := Power(n - 1) / TWO32;
      assert Power(n) == (q * TWO8) * TWO32;
    }
  }

  lemma SignedStart(bs: seq<byte>, k: nat)
    requires 0 < |bs| && k <= 2 && k <= |bs|
    ensures k == 0 ==> Signed(bs[..k], false) == 0
    ensures k == 1 ==> Signed(bs[..k], bs[0] >= TWO7) == if bs[0] >= TWO7 then bs[0] - TWO8 else bs[0]
    ensures k == 2 ==> Signed(bs[..k], bs[0] >= TWO7) ==
                       TWO8 * bs[0] + bs[1] - if bs[0] >= TWO7 then TWO16 else 0
  {
    assert Power(0) == 1 && Power(1) == TWO8 && Power(2) == Power(1) * TWO8;
    assert bs[..0] == [];
    if k == 1 {
      assert bs[..1][..0] == [];
      assert Unsigned(bs[..1]) == Unsigned([]) * TWO8 + bs[0];
    } else if k == 2 {
      assert bs[..2][..1] == bs[..1] && bs[..1][..0] == [];
      assert Unsigned(bs[..1]) == Unsigned(bs[..1][..0]) * TWO8 + bs[0];
    }
  }

  /** readInt32(): the two's-complement value of the content modulo 2^32. */
  method ReadInt32(data: seq<byte>, offset: int, dlen: nat) returns (r: Item<word>)
    requires dlen + 2 <= |data|
    ensures r == Int32At(data, offset, dlen)
  {
    hide U32, Signed;
    if offset < 0 || offset >= dlen || data[offset] != INTEGER {
      return Bad;
    }
    var head := ReadLength(data, offset + 1, dlen);
    if head.Bad? || head.next + head.value > dlen {
      return Bad;
    }
    var at, blen := head.next, head.value;
    ghost var bs := Content(data, at, blen);
    var k := 0;                         // octets taken
    var temp: word := 0;
    var first := data[at];
    ghost var negative := first >= TWO7 && (blen % 2 == 1 || blen < 4);
    if blen % 2 == 1 {
      SignedStart(bs, 1);
      temp := U32(if first >= TWO7 then first - TWO8 else first);
      k := 1;
    } else if blen < 4 {
      SignedStart(bs, 2);
      var pair := TWO8 * first + data[at + 1];
      temp := U32(if pair >= TWO15 then pair - TWO16 else pair);
      k := 2;
    } else {
      SignedStart(bs, 0);
      U32Fits(0);
    }
    while k < blen
      invariant 0 <= k <= |bs| && (|bs| - k) % 2 == 0
      invariant temp == U32(Signed(bs[..k], negative))
    {
      var w := TWO8 * data[at + k] + data[at + k + 1];
      SignedNext(bs, k, negative);
      U32Scale(Signed(bs[..k], negative), TWO16);
      U32Add(Signed(bs[..k], negative) * TWO16, w);
      U32Add(temp * TWO16, w);
      temp := U32(temp * TWO16 + w);
      k := k + 2;
    }
    assert bs[..|bs|] == bs;
    if |bs| >= 4 {
      SignLost(bs);
    }
    r := Item(temp, at + blen);
  }

  /** The octet string that readBytes() is to read into a buffer with the given room. */
  function BytesAt(data: seq<byte>, offset: int, dlen: nat, room: nat): (r: Item<seq<byte>>)
    requires dlen <= |data|
  {
    if offset < 0 || offset >= dlen || data[offset] != OCTETS then Bad else
      match ReadLength(data, offset + 1, dlen)
      case Bad => Bad
      case Item(blen, next) =>
        if next + blen > dlen then Bad
        else Item(data[next..next + if room > blen then blen else room], next + blen)
  }

  /** readBytes() */
  method ReadBytes(data: seq<byte>, offset: int, dlen: nat, result: array<byte>, room: nat)
    returns (next: int, rlen: nat)
    requires dlen <= |data| && room <= result.Length
    modifies result
    ensures rlen <= room && next >= -1
    ensures next == -1 <==> BytesAt(data, offset, dlen, room).Bad?
    ensures next == -1 ==> result[..] == old(result[..])
    ensures next >= 0 ==> BytesAt(data, offset, dlen, room) == Item(result[..rlen], next)
    ensures result[rlen..] == old(result[rlen..])
  {
    rlen := room;
    if offset < 0 || offset >= dlen || data[offset] != OCTETS {
      return -1, rlen;
    }
    var head := ReadLength(data, offset + 1, dlen);
    if head.Bad? || head.next + head.value > dlen {
      return -1, rlen;
    }
    if rlen > head.value {
      rlen := head.value;
    }
    var i := 0;
    while i < rlen
      invariant 0 <= i <= rlen
      invariant result[..i] == data[head.next..head.next + i]
      invariant result[rlen..] == old(result[rlen..])
    {
      result[i] := data[head.next + i];
      i := i + 1;
    }
    next := head.next + head.value;
  }

  /** The numbers at the head of a PDU. */
  datatype Message = Message(id: word, status: word, index: word)

  /** A tag and a length that is zero or that of all the bytes left. */
  function Opened(data: seq<byte>, offset: nat, dlen: nat, tag: byte): (r: Item<nat>)
    requires offset < |data| && dlen <= |data|
    ensures r.Item? ==> offset < r.next <= dlen
  {
    if data[offset] != tag then Bad else
      match ReadLength(data, offset + 1, dlen)
      case Bad => Bad
      case Item(slen, next) => if slen != 0 && dlen - next != slen then Bad else Item(slen, next)
  }

  /** Opening an element inside a message, as snmp::process() does: without asking whether
      the offset is one. An offset of -1, left by a field that could not be read, means
      the byte before the data; a length that cannot be read leaves the last one in place.
      The result is the next offset and the last length. */
  function OpenedLoosely(data: seq<byte>, before: byte, offset: int, dlen: nat, tag: byte, slen: nat): (r: Entry)
    requires -1 <= offset < |data| && dlen <= |data|
    ensures r.Entry? ==> -1 <= r.offset <= dlen
  {
    if (if offset < 0 then before else data[offset]) != tag then NoEntry else
      match ReadLength(data, offset + 1, dlen)
      case Bad => if slen != 0 && dlen + 1 != slen then NoEntry else Entry(-1, slen)
      case Item(n, next) => if n != 0 && dlen - next != n then NoEntry else Entry(next, n)
  }

  datatype Entry = NoEntry | Entry(offset: int, slen: nat)

  /** The next number: one that cannot be read stays what it was. */
  function NumberAt(data: seq<byte>, offset: int, dlen: nat, was: word): (r: (word, int))
    requires dlen + 2 <= |data|
    ensures -1 <= r.1 <= dlen
  {
    match Int32At(data, offset, dlen)
    case Bad => (was, -1)
    case Item(value, next) => (value, next)
  }

  /** The three numbers of a PDU, one after the other, and the offset after them. */
  function NumbersAt(data: seq<byte>, offset: int, dlen: nat, was: Message): (r: (Message, int))
    requires dlen + 2 <= |data|
    ensures -1 <= r.1 <= dlen
  {
    var id := NumberAt(data, offset, dlen, was.id);
    var status := NumberAt(data, id.1, dlen, was.status);
    var index := NumberAt(data, status.1, dlen, was.index);
    (Message(id.0, status.0, index.0), index.1)
  }

  datatype Outcome = Refused | Taken(message: Message, offset: int)

  /** The PDU, up to the content of its list of bindings. */
  function PduAt(data: seq<byte>, before: byte, offset: nat, dlen: nat, pdu: byte, slen: nat, was: Message): Outcome
    requires offset <= dlen && dlen + 2 <= |data|
  {
    var body := OpenedLoosely(data, before, offset, dlen, pdu, slen);
    if body.NoEntry? then Refused else
      var (numbers, next) := NumbersAt(data, body.offset, dlen, was);
      var list := OpenedLoosely(data, before, next, dlen, SEQUENCE, body.slen);
      if list.NoEntry? then Refused else Taken(numbers, list.offset)
  }

  /** Version 0 and the community "status": the length of the message and the offset of
      its PDU. */
  function HeaderAt(data: seq<byte>, dlen: nat): (r: Item<nat>)
    requires dlen + 2 <= |data|
    ensures r.Item? ==> r.next <= dlen
  {
    var body := Opened(data, 0, dlen, SEQUENCE);
    if body.Bad? then Bad else
      var version := Int32At(data, body.next, dlen);
      if version.Bad? || version.value != 0 then Bad else
        var community := BytesAt(data, version.next, dlen, 16);
        if community.Bad? || community.value != STATUS then Bad else Item(body.value, community.next)
  }

  /** A message, read as snmp::process() reads one, up to the content of its list of
      bindings. `before` is the byte before the data, `was` the numbers of the last
      message. */
  function MessageAt(data: seq<byte>, before: byte, dlen: nat, pdu: byte, was: Message): Outcome
    requires dlen + 2 <= |data|
  {
    var header := HeaderAt(data, dlen);
    if header.Bad? then Refused else PduAt(data, before, header.next, dlen, pdu, header.value, was)
  }

  /** A message with a number or a PDU length that cannot be read is taken all the same,
      with old numbers, if and only if it is 49 bytes long and the byte before it is that
      of a sequence: the reading starts over at its first byte. */
  lemma UnreadableTakenExactly(data: seq<byte>, before: byte, dlen: nat, pdu: byte, was: Message)
    requires dlen + 2 <= |data| && HeaderAt(data, dlen).Item?
    requires var body := OpenedLoosely(data, before, HeaderAt(data, dlen).next, dlen, pdu, HeaderAt(data, dlen).value);
      body.Entry? && NumbersAt(data, body.offset, dlen, was).1 == -1
    ensures MessageAt(data, before, dlen, pdu, was).Taken? <==> before == SEQUENCE && dlen == 49
  {
    hide Int32At, BytesAt;
    assert data[0] == SEQUENCE && dlen > 0;
    assert ReadLength(data, 0, dlen) == Item(0x30, 1);
  }

  lemma AtTlv(data: seq<byte>, at: nat, tag: byte, content: seq<byte>)
    requires |content| < TWO31 && At(data, at, Tlv(tag, content))
    ensures At(data, at + 1, Length(|content|)) && At(data, at + 1 + |Length(|content|)|, content)
    ensures data[at] == tag
  {
    var ls := Length(|content|);
    hide Length;
    assert Tlv(tag, content) == [tag] + (ls + content);
    AtBoth(data, at, [tag], ls + content);
    AtBoth(data, at + 1, ls, content);
    assert data[at..at + 1][0] == tag;
  }

  /** An element that ends where the data end is opened, its length being that of the
      bytes left, exactly when that length takes at most two octets. */
  lemma OpensExactly(data: seq<byte>, at: nat, tag: byte, content: seq<byte>, dlen: nat)
    requires |content| < TWO31 && At(data, at, Tlv(tag, content))
    requires dlen <= |data| && at + |Tlv(tag, content)| == dlen
    ensures Opened(data, at, dlen, tag) ==
            if |content| < TWO16 then Item(|content|, dlen - |content|) else Bad
  {
    AtTlv(data, at, tag, content);
    ReadsBackLengthExactly(data, at + 1, |content|, dlen);
  }

  lemma ReadsBackInteger(data: seq<byte>, at: nat, content: seq<byte>, dlen: nat)
    requires 0 < |content| < TWO7 && At(data, at, Tlv(INTEGER, content))
    requires dlen + 2 <= |data| && at + 2 + |content| <= dlen
    ensures Int32At(data, at, dlen) == Item(U32(IntegerValue(content)), at + 2 + |content|)
  {
    AtTlv(data, at, INTEGER, content);
    ReadsBackLengthExactly(data, at + 1, |content|, dlen);
    hide U32, Signed;
    assert Content(data, at + 2, |content|) == content;
  }

  lemma ReadsBackBytes(data: seq<byte>, at: nat, content: seq<byte>, dlen: nat, room: nat)
    requires |content| < TWO7 && |content| <= room && At(data, at, Tlv(OCTETS, content))
    requires dlen <= |data| && at + 2 + |content| <= dlen
    ensures BytesAt(data, at, dlen, room) == Item(content, at + 2 + |content|)
  {
    AtTlv(data, at, OCTETS, content);
    ReadsBackLengthExactly(data, at + 1, |content|, dlen);
  }

  /** The four octets of a word, as an INTEGER, are that word modulo 2^32. */
  lemma WordValue(w: word)
    ensures U32(IntegerValue(WordOctets(w))) == w
    ensures U32(IntegerValue([0])) == 0
  {
    var bs := WordOctets(w);
    SignedStart(bs, 0);
    SignedNext(bs, 0, false);
    SignedNext(bs, 2, false);
    assert bs[..4] == bs;
    assert w == ((w / TWO16 / TWO8 * TWO8 + w / TWO16 % TWO8) * TWO16 + (TWO8 * (w / TWO8 % TWO8) + w % TWO8));
    assert Signed(bs, false) == w;
    SignLost(bs);
    SignedStart([0], 1);
    assert [0][..1] == [0];
  }

  lemma NumbersReadBack(id: word, rest: seq<byte>, data: seq<byte>, at: nat, dlen: nat, was: Message)
    requires At(data, at, Tlv(INTEGER, WordOctets(id)) + Tlv(INTEGER, [0]) + Tlv(INTEGER, [0]) + rest)
    requires dlen + 2 <= |data| && at + 12 <= dlen
    ensures NumbersAt(data, at, dlen, was) == (Message(id, 0, 0), at + 12)
    ensures At(data, at + 12, rest)
  {
    var w: seq<byte>, z: seq<byte> := Tlv(INTEGER, WordOctets(id)), Tlv(INTEGER, [0]);
    WordValue(id);
    ShortTlv(INTEGER, WordOctets(id));
    ShortTlv(INTEGER, [0]);
    hide Tlv, Int32At, At, WordOctets, IntegerValue, U32;
    AtBoth(data, at, w + z + z, rest);
    AtBoth(data, at, w + z, z);
    AtBoth(data, at, w, z);
    ReadsBackInteger(data, at, WordOctets(id), dlen);
    ReadsBackInteger(data, at + 6, [0], dlen);
    ReadsBackInteger(data, at + 9, [0], dlen);
  }

  /** Where the strict reading succeeds, the loose one does the same. */
  lemma LooselyToo(data: seq<byte>, before: byte, offset: nat, dlen: nat, tag: byte, slen: nat)
    requires offset < |data| && dlen <= |data| && Opened(data, offset, dlen, tag).Item?
    ensures var r := Opened(data, offset, dlen, tag);
      OpenedLoosely(data, before, offset, dlen, tag, slen) == Entry(r.next, r.value)
  {
  }

  lemma PduReadsBack(id: word, vars: seq<byte>, data: seq<byte>, before: byte, at: nat, dlen: nat, slen: nat,
                     was: Message)
    requires |vars| < VARS_MAX && At(data, at, Tlv(GET_RESPONSE, PduBody(id, vars)))
    requires dlen + 2 <= |data| && at + |Tlv(GET_RESPONSE, PduBody(id, vars))| == dlen
    requires |PduBody(id, vars)| < TWO16
    ensures PduAt(data, before, at, dlen, GET_RESPONSE, slen, was) == Taken(Message(id, 0, 0), dlen - |vars|)
    ensures At(data, dlen - |vars|, vars)
  {
    hide Tlv, At, NumbersAt, Opened, OpenedLoosely, WordOctets;
    var body := PduBody(id, vars);
    var p := dlen - |body|;
    OpensExactly(data, at, GET_RESPONSE, body, dlen);
    LooselyToo(data, before, at, dlen, GET_RESPONSE, slen);
    AtTlv(data, at, GET_RESPONSE, body);
    TlvLength(GET_RESPONSE, body);
    BodyShape(id, vars);
    NumbersReadBack(id, Bindings(vars), data, p, dlen, was);
    OpensExactly(data, p + 12, SEQUENCE, vars, dlen);
    LooselyToo(data, before, p + 12, dlen, SEQUENCE, |body|);
    AtTlv(data, p + 12, SEQUENCE, vars);
    TlvLength(SEQUENCE, vars);
  }

  lemma TlvLength(tag: byte, content: seq<byte>)
    requires |content| < TWO31
    ensures |Tlv(tag, content)| == 1 + |Length(|content|)| + |content|
  {
  }

  lemma BodyShape(id: word, vars: seq<byte>)
    requires |vars| < VARS_MAX
    ensures |PduBody(id, vars)| == 12 + |Bindings(vars)|
  {
    ShortTlv(INTEGER, WordOctets(id));
    ShortTlv(INTEGER, [0]);
  }

  lemma MessageShape(id: word, vars: seq<byte>)
    requires |vars| < VARS_MAX
    ensures |MessageBody(id, vars)| == TotalLength(|vars|) < TWO31
    ensures |Response(id, vars)| == 1 + |Length(|MessageBody(id, vars)|)| + |MessageBody(id, vars)|
    ensures |Tlv(GET_RESPONSE, PduBody(id, vars))| == |MessageBody(id, vars)| - 11
    ensures |Tlv(INTEGER, [0])| == 3 && |Tlv(OCTETS, STATUS)| == 8
    ensures |vars| < |PduBody(id, vars)| < |MessageBody(id, vars)|
  {
    MessageItems(id, vars);
    HeadItems();
    TlvLength(SEQUENCE, MessageBody(id, vars));
  }

  lemma CommunityReadsBack(data: seq<byte>, at: nat, dlen: nat, pdu: seq<byte>)
    requires At(data, at, Tlv(INTEGER, [0]) + Tlv(OCTETS, STATUS) + pdu)
    requires dlen + 2 <= |data| && at + 11 <= dlen
    ensures Int32At(data, at, dlen) == Item(0, at + 3)
    ensures BytesAt(data, at + 3, dlen, 16) == Item(STATUS, at + 11)
    ensures At(data, at + 11, pdu)
  {
    var z, status := Tlv(INTEGER, [0]), Tlv(OCTETS, STATUS);
    HeadItems();
    WordValue(0);
    hide Tlv, At, Int32At, BytesAt, U32, IntegerValue;
    AtBoth(data, at, z + status, pdu);
    AtBoth(data, at, z, status);
    ReadsBackInteger(data, at, [0], dlen);
    ReadsBackBytes(data, at + 3, STATUS, dlen, 16);
  }

  lemma MessageReadsBack(id: word, vars: seq<byte>, data: seq<byte>, before: byte, dlen: nat, was: Message)
    requires |vars| < VARS_MAX && At(data, 0, Response(id, vars))
    requires dlen == |Response(id, vars)| && dlen + 2 <= |data|
    ensures MessageAt(data, before, dlen, GET_RESPONSE, was) ==
            if TotalLength(|vars|) < TWO16 then Taken(Message(id, 0, 0), dlen - |vars|) else Refused
  {
    hide Tlv, At, PduBody, LengthSize, BodyLength, TotalLength, Length, PduAt, Opened, Int32At, BytesAt;
    var body := MessageBody(id, vars);
    var p := dlen - |body|;
    MessageShape(id, vars);
    OpensExactly(data, 0, SEQUENCE, body, dlen);
    if |body| < TWO16 {
      AtTlv(data, 0, SEQUENCE, body);
      CommunityReadsBack(data, p, dlen, Tlv(GET_RESPONSE, PduBody(id, vars)));
      PduReadsBack(id, vars, data, before, p + 11, dlen, |body|, was);
    }
  }

  /** A get request whose PDU begins with no INTEGER, in zeros up to 51 bytes. */
  function NoNumbers(): (data: seq<byte>)
    ensures |data| == 51
  {
    [SEQUENCE, 0] + (Tlv(INTEGER, [0]) + Tlv(OCTETS, STATUS) + ([GET_REQUEST, 0] + seq(36, _ => 0)))
  }

  /** A message of that kind: it is taken with the numbers of the one before it, and its
      own second byte is where its bindings are said to begin. */
  lemma UnreadableTaken(was: Message)
    ensures MessageAt(NoNumbers(), SEQUENCE, 49, GET_REQUEST, was) == Taken(was, 1)
  {
    HeadItems();
    var data, pdu: seq<byte> := NoNumbers(), [GET_REQUEST, 0] + seq(36, _ => 0);
    assert data[0] == SEQUENCE && data[1] == 0;
    assert At(data, 2, Tlv(INTEGER, [0]) + Tlv(OCTETS, STATUS) + pdu);
    hide Tlv, At, NoNumbers;
    CommunityReadsBack(data, 2, 49, pdu);
    PduStarts(data, pdu);
    hide BytesAt;
    assert HeaderAt(data, 49) == Item(0, 13);
    assert NumbersAt(data, 15, 49, was) == (was, -1);
  }

  lemma PduStarts(data: seq<byte>, pdu: seq<byte>)
    requires At(data, 13, pdu) && |pdu| >= 3
    ensures data[13] == pdu[0] && data[14] == pdu[1] && data[15] == pdu[2]
  {
    assert data[13] == data[13..13 + |pdu|][0] && data[14] == data[13..13 + |pdu|][1];
    assert data[15] == data[13..13 + |pdu|][2];
  }

  /** What wrapVars() writes, the readers of snmp::process() read back, every length
      being that of the bytes left; exactly while the message takes a two-octet
      length. */
  lemma ReadsBackExactly(id: word, vars: seq<byte>, before: byte, after: seq<byte>, was: Message)
    requires |vars| < VARS_MAX && |after| >= 2
    ensures var s := Response(id, vars);
            MessageAt(s + after, before, |s|, GET_RESPONSE, was) ==
            if TotalLength(|vars|) < TWO16 then Taken(Message(id, 0, 0), |s| - |vars|) else Refused
    ensures var s := Response(id, vars); |vars| <= |s| && s[|s| - |vars|..] == vars
  {
    ResponseEnds(id, vars);
    hide Response, MessageAt, TotalLength;
    MessageReadsBack(id, vars, Response(id, vars) + after, before, |Response(id, vars)|, was);
  }

  lemma ResponseEnds(id: word, vars: seq<byte>)
    requires |vars| < VARS_MAX
    ensures var s := Response(id, vars); |vars| <= |s| && s[|s| - |vars|..] == vars
  {
    ResponseIs(id, vars);
    BodyInOrder(id, vars);
    hide Head, Tlv, Length, Response, PduBody;
  }

  /** snmp::process() as far as the list of bindings, for the given kind of PDU. The three
      numbers are those of the last message before they are read. */
  method ReadMessage(data: seq<byte>, before: byte, dlen: nat, pdu: byte, was: Message) returns (r: Outcome)
    requires dlen + 2 <= |data|
    ensures r == MessageAt(data, before, dlen, pdu, was)
  {
    hide Int32At, ReadLength, OpenedLoosely;
    var body := Opened(data, 0, dlen, SEQUENCE);
    if body.Bad? {
      return Refused;
    }
    var version := ReadInt32(data, body.next, dlen);
    if version.Bad? || version.value != 0 {
      return Refused;
    }
    var buff := new byte[16](i => 0);
    var offset, blen := ReadBytes(data, version.next, dlen, buff, 16);
    if offset < 0 || blen != 6 || buff[..6] != STATUS {
      return Refused;
    }
    var entry := OpenedLoosely(data, before, offset, dlen, pdu, body.value);
    if entry.NoEntry? {
      return Refused;
    }
    offset := entry.offset;
    var numbers := was;
    var number := ReadInt32(data, offset, dlen);
    offset := -1;
    if number.Item? {
      numbers, offset := numbers.(id := number.value), number.next;
    }
    number := ReadInt32(data, offset, dlen);
    offset := -1;
    if number.Item? {
      numbers, offset := numbers.(status := number.value), number.next;
    }
    number := ReadInt32(data, offset, dlen);
    offset := -1;
    if number.Item? {
      numbers, offset := numbers.(index := number.value), number.next;
    }
    entry := OpenedLoosely(data, before, offset, dlen, SEQUENCE, entry.slen);
    if entry.NoEntry? {
      return Refused;
    }
    r := Taken(numbers, entry.offset);
  }

  // ----- the INTEGER without content

  /** Only the octets before the end of the length decide it. */
  lemma LengthDependsOn(data: seq<byte>, other: seq<byte>, offset: int, dlen: nat)
    requires dlen <= |data| == |other|
    requires var r := ReadLength(data, offset, dlen); r.Item? && other[..r.next] == data[..r.next]
    ensures ReadLength(other, offset, dlen) == ReadLength(data, offset, dlen)
  {
    var n := ReadLength(data, offset, dlen).next;
    assert forall i :: 0 <= i < n ==> other[i] == other[..n][i] && data[i] == data[..n][i];
  }

  lemma LowOctetShows(hi: byte, lo: byte)
    ensures U32(IntegerValue([hi, (lo + 1) % TWO8])) != U32(IntegerValue([hi, lo]))
  {
    var a: seq<byte>, b: seq<byte> := [hi, lo], [hi, (lo + 1) % TWO8];
    SignedStart(a, 2);
    SignedStart(b, 2);
    assert a[..2] == a && b[..2] == b;
    hide U32, Signed;
    var x, y := IntegerValue(a), IntegerValue(b);
    assert y == x + 1 || y == x - 0xFF;
    NotCongruent(x, y - x);
  }

  lemma NotCongruent(x: int, d: int)
    requires -TWO32 < d < TWO32 && d != 0
    ensures U32(x + d) != U32(x)
  {
  }

  /** The value of an INTEGER is a matter of the element itself if and only if it has
      content, which section 8.3.1 of X.690 demands: without any, the octets behind it
      decide. */
  lemma ElementDecidesExactly(data: seq<byte>, offset: nat, dlen: nat, blen: nat, next: nat)
    requires dlen + 2 <= |data| && offset < dlen && data[offset] == INTEGER
    requires ReadLength(data, offset + 1, dlen) == Item(blen, next) && next + blen <= dlen
    ensures (forall other: seq<byte> :: |other| == |data| && other[..next + blen] == data[..next + blen] ==>
               Int32At(other, offset, dlen) == Int32At(data, offset, dlen))
            <==> blen > 0
  {
    if blen > 0 {
      forall other: seq<byte> | |other| == |data| && other[..next + blen] == data[..next + blen]
        ensures Int32At(other, offset, dlen) == Int32At(data, offset, dlen)
      {
        SameElement(data, other, offset, dlen, blen, next);
      }
    } else {
      var low: byte := (data[next + 1] + 1) % TWO8;
      var other: seq<byte> := data[next + 1 := low];
      assert other[..next] == data[..next];
      LengthDependsOn(data, other, offset + 1, dlen);
      assert other[offset] == data[offset];
      assert Content(data, next, 0) == [data[next], data[next + 1]];
      assert Content(other, next, 0) == [data[next], low];
      LowOctetShows(data[next], data[next + 1]);
      assert Int32At(other, offset, dlen) != Int32At(data, offset, dlen);
    }
  }

  lemma SameElement(data: seq<byte>, other: seq<byte>, offset: nat, dlen: nat, blen: nat, next: nat)
    requires dlen + 2 <= |data| == |other| && offset < dlen && data[offset] == INTEGER && blen > 0
    requires ReadLength(data, offset + 1, dlen) == Item(blen, next) && next + blen <= dlen
    requires other[..next + blen] == data[..next + blen]
    ensures Int32At(other, offset, dlen) == Int32At(data, offset, dlen)
  {
    hide U32, IntegerValue;
    assert other[..next] == other[..next + blen][..next] && data[..next] == data[..next + blen][..next];
    LengthDependsOn(data, other, offset + 1, dlen);
    assert other[offset] == other[..next][offset] && data[offset] == data[..next][offset];
    assert other[next..next + blen] == other[..next + blen][next..];
    assert data[next..next + blen] == data[..next + blen][next..];
  }

  /** Four octets that show it: the two behind the element are its value. */
  lemma EmptyIntegerReadsAhead(hi: byte, lo: byte)
    ensures Int32At([INTEGER, 0, hi, lo], 0, 2) ==
            Item(U32(TWO8 * hi + lo - if hi >= TWO7 then TWO16 else 0), 2)
  {
    var data: seq<byte> := [INTEGER, 0, hi, lo];
    hide U32, Signed;
    SignedStart(data[2..4], 2);
    assert data[2..4][..2] == data[2..4];
  }
}
