/** The wire form of a client packet: a length-prefixed head and an opaque body (public/game_packet.h). */
module CsPackets {
  import opened Bytes
  import opened Division
  import opened Framing

  newtype int16 = x: int | -0x8000 <= x < 0x8000
  newtype int32 = x: int | -0x8000_0000 <= x < 0x8000_0000

  const CS_HEAD_PLUS_SIZE := 12
  const MSG_TYPE_NOTIFY := 2

  // ------------------------------------------------------------ numbers on the wire

  function U16(x: int): int { x % 0x1_0000 }
  function U32(x: int): int { x % 0x1_0000_0000 }

  /** A 16-bit pattern read back as a signed field. */
  function Signed16(u: int): int16
    requires 0 <= u < 0x1_0000
  {
    if u < 0x8000 then u as int16 else (u - 0x1_0000) as int16
  }

  function Signed32(u: int): int32
    requires 0 <= u < 0x1_0000_0000
  {
    if u < 0x8000_0000 then u as int32 else (u - 0x1_0000_0000) as int32
  }

  /** `hton_int16`: the low 16 bits, high byte first. */
  function Bytes16(x: int): (s: seq<byte>)
    ensures |s| == 2
  {
    [(U16(x) / 256) as byte, (x % 256) as byte]
  }

  function Bytes32(x: int): (s: seq<byte>)
    ensures |s| == 4
  {
    Bytes16(U32(x) / 0x1_0000) + Bytes16(x)
  }

  /** `ntoh_int16`. */
  function Value16(s: seq<byte>): int
    requires |s| == 2
  {
    Word(s[0], s[1])
  }

  function Value32(s: seq<byte>): int
    requires |s| == 4
  {
    Value16(s[..2]) * 0x1_0000 + Value16(s[2..])
  }

  lemma Bytes16Value(x: int)
    ensures Value16(Bytes16(x)) == U16(x)
  {
    assert x % 256 == U16(x) % 256;
  }

  lemma Bytes32Value(x: int)
    ensures Value32(Bytes32(x)) == U32(x)
  {
    LowHalf(x);
    var high := U32(x) / 0x1_0000;
    SmallU16(high);
    hide Bytes16, Value16, U16;
    Bytes16Value(high);
    Bytes16Value(x);
    assert Bytes32(x)[..2] == Bytes16(high) && Bytes32(x)[2..] == Bytes16(x);
  }

  /** The bytes written are the low bytes of the number, high byte first. */
  lemma BytesSpell(x: int)
    ensures Spells16(Bytes16(x), 0, x) && Spells32(Bytes32(x), 0, x)
  {
    LowBytes(x);
    LowBytes(x / 0x1_0000);
    HighBytes(x);
  }

  lemma LowBytes(x: int)
    ensures U16(x) / 256 == x / 256 % 256
  {
    var q := x / 0x1_0000;
    AddTurns(U16(x), 256, q * 256);
    AddTurns(U16(x) / 256, 256, q);
  }

  lemma HighBytes(x: int)
    ensures U16(U32(x) / 0x1_0000) == U16(x / 0x1_0000)
    ensures U32(x) / 0x1_0000 % 256 == x / 0x1_0000 % 256
  {
    var q := x / 0x1_0000_0000;
    AddTurns(U32(x), 0x1_0000, q * 0x1_0000);
    AddTurns(U32(x) / 0x1_0000, 0x1_0000, q);
    AddTurns(U32(x) / 0x1_0000, 256, q * 256);
  }

  lemma LowHalf(x: int)
    ensures U32(x) == (U32(x) / 0x1_0000) * 0x1_0000 + U16(x) && 0 <= U32(x) / 0x1_0000 < 0x1_0000
  {
    var q, r := x / 0x1_0000_0000, U32(x);
    AddTurns(r, 0x1_0000, q * 0x1_0000);
  }

  lemma SmallU16(x: int)
    requires 0 <= x < 0x1_0000
    ensures U16(x) == x
  {
  }

  lemma SignedBack(a: int16, b: int32)
    ensures Signed16(U16(a as int)) == a && Signed32(U32(b as int)) == b
  {
  }

  // ------------------------------------------------------------ the wire form

  /** A packet's fields; the body is its serialised bytes. */
  datatype Message = Message(code: int16, reserved: int16, seqNo: int32, body: seq<byte>)

  /** Everything but a notification carries the longer head. */
  predicate HavePlus(packetType: int) {
    U16(packetType) % 4 != MSG_TYPE_NOTIFY
  }

  function HeadSize(packetType: int): (n: int)
    ensures n == CS_HEAD_SIZE || n == CS_HEAD_PLUS_SIZE
  {
    if HavePlus(packetType) then CS_HEAD_PLUS_SIZE else CS_HEAD_SIZE
  }

  function WireSize(packetType: int, m: Message): int {
    HeadSize(packetType) + |m.body|
  }

  function WireHead(packetType: int, m: Message): (s: seq<byte>)
    ensures |s| == HeadSize(packetType)
  {
    Bytes16(WireSize(packetType, m)) + Bytes16(packetType)
    + if HavePlus(packetType) then
        Bytes16(m.code as int) + Bytes16(m.reserved as int) + Bytes32(m.seqNo as int)
      else []
  }

  function Wire(packetType: int, m: Message): (s: seq<byte>)
    ensures |s| == WireSize(packetType, m)
  {
    WireHead(packetType, m) + m.body
  }

  /**
   What a packet looks like byte by byte: length, type and, unless the two low bits of the
   type say notification, code, reserved field and sequence number; then the body.
   */
  predicate LaidOut(w: seq<byte>, packetType: int, m: Message) {
    && Spells16(w, 0, |w|) && Spells16(w, 2, packetType)
    && if packetType % 4 == 2 then
         |w| == 4 + |m.body| && w[4..] == m.body
       else
         && |w| == 12 + |m.body| && w[12..] == m.body
         && Spells16(w, 4, m.code as int) && Spells16(w, 6, m.reserved as int) && Spells32(w, 8, m.seqNo as int)
  }

  lemma WireIsLaidOut(packetType: int, m: Message)
    requires WireSize(packetType, m) < 65535
    ensures LaidOut(Wire(packetType, m), packetType, m)
  {
    hide Bytes16, Bytes32;
    PlusByLowBits(packetType);
    BytesSpell(WireSize(packetType, m));
    BytesSpell(packetType);
    BytesSpell(m.code as int);
    BytesSpell(m.reserved as int);
    BytesSpell(m.seqNo as int);
  }

  /** The two low bits of the type tell the size of the head. */
  lemma PlusByLowBits(packetType: int)
    ensures HeadSize(packetType) == if packetType % 4 == 2 then 4 else 12
    ensures HavePlus(packetType) <==> packetType % 4 != 2
  {
    AddTurns(U16(packetType), 4, packetType / 0x1_0000 * 0x4000);
  }

  /**
   When `encode` succeeds in `size` bytes.  A buffer with room for the head alone is
   refused even for an empty body: the stream cannot tell its position in no space.
   */
  predicate Encodable(packetType: int, m: Message, size: int) {
    HeadSize(packetType) < size && WireSize(packetType, m) <= size && WireSize(packetType, m) < 65535
  }

  datatype Decoded = Rejected | Accepted(size: int, message: Message)

  function Slice(data: seq<byte>, at: nat, n: nat): (s: seq<byte>)
    requires at + n <= |data|
    ensures |s| == n
  {
    data[at..at + n]
  }

  /** What `decode` makes of `data`; a body that does not parse is rejected. */
  function Decode(packetType: int, data: seq<byte>, parses: seq<byte> -> bool): Decoded
    requires Decodable(packetType, data)
  {
    if |data| < HeadSize(packetType) || Value16(Slice(data, 2, 2)) != packetType then Rejected
    else
      var n := Value16(Slice(data, 0, 2));
      var body := data[HeadSize(packetType)..n];
      if !parses(body) then Rejected
      else if HavePlus(packetType) then
        Accepted(n, Message(Signed16(Value16(Slice(data, 4, 2))), Signed16(Value16(Slice(data, 6, 2))),
          Signed32(Value32(Slice(data, 8, 4))), body))
      else Accepted(n, Message(0, 0, 0, body))
  }

  /** The length field of a packet of this type stays within the data, as the callers see to. */
  predicate Decodable(packetType: int, data: seq<byte>) {
    |data| >= HeadSize(packetType) && Value16(Slice(data, 2, 2)) == packetType ==>
      HeadSize(packetType) <= Value16(Slice(data, 0, 2)) <= |data|
  }

  /**
   A packet of this type at the front of `data`: long enough, of just that type, with a
   length within the data and a body that parses.
   */
  predicate Readable(packetType: int, data: seq<byte>, parses: seq<byte> -> bool) {
    var head := if packetType % 4 == 2 then 4 else 12;
    && head <= |data|
    && packetType == data[2] as int * 256 + data[3] as int
    && var n := data[0] as int * 256 + data[1] as int;
       head <= n <= |data| && parses(data[head..n])
  }

  /** `decode` accepts just the packets that are readable, and finds the fields that are laid out there. */
  lemma DecodeReads(packetType: int, data: seq<byte>, parses: seq<byte> -> bool)
    requires Decodable(packetType, data)
    ensures Decode(packetType, data, parses).Accepted? <==> Readable(packetType, data, parses)
    ensures match Decode(packetType, data, parses)
            case Rejected => true
            case Accepted(n, m) => 0 <= n <= |data| && LaidOut(data[..n], packetType, m)
  {
    PlusByLowBits(packetType);
    hide Value32, Signed16, Signed32, HavePlus, U16;
    if Readable(packetType, data, parses) {
      var n := Value16(Slice(data, 0, 2));
      ValueSpells(data[..n], 0);
      ValueSpells(data[..n], 2);
      if packetType % 4 != 2 {
        ValueSpells(data[..n], 4);
        ValueSpells(data[..n], 6);
        LongValueSpells(data[..n], 8);
      }
      SlicesOf(data, n);
    }
  }

  lemma SlicesOf(data: seq<byte>, n: nat)
    requires 4 <= n <= |data|
    ensures Slice(data[..n], 0, 2) == Slice(data, 0, 2) && Slice(data[..n], 2, 2) == Slice(data, 2, 2)
    ensures n >= 12 ==> Slice(data[..n], 4, 2) == Slice(data, 4, 2) && Slice(data[..n], 6, 2) == Slice(data, 6, 2)
    ensures n >= 12 ==> Slice(data[..n], 8, 4) == Slice(data, 8, 4)
  {
  }

  lemma ValueSpells(s: seq<byte>, at: nat)
    requires at + 2 <= |s|
    ensures 0 <= Value16(Slice(s, at, 2)) < 0x1_0000
    ensures Spells16(s, at, Value16(Slice(s, at, 2)))
    ensures Spells16(s, at, Signed16(Value16(Slice(s, at, 2))) as int)
  {
    var h, l := s[at] as int, s[at + 1] as int;
    DivModUnique(h * 256 + l, 256, h, l);
    DivModUnique(h * 256 + l - 0x1_0000, 256, h - 256, l);
    DivModUnique(h - 256, 256, -1, h);
  }

  lemma LongValueSpells(s: seq<byte>, at: nat)
    requires at + 4 <= |s|
    ensures 0 <= Value32(Slice(s, at, 4)) < 0x1_0000_0000
    ensures Spells32(s, at, Signed32(Value32(Slice(s, at, 4))) as int)
  {
    var high, low := Value16(Slice(s, at, 2)), Value16(Slice(s, at + 2, 2));
    assert Slice(s, at, 4)[..2] == Slice(s, at, 2) && Slice(s, at, 4)[2..] == Slice(s, at + 2, 2);
    ValueSpells(s, at);
    ValueSpells(s, at + 2);
    hide Value16, Signed16;
    SpellsHalves(s, at, high, low);
    SpellsHalves(s, at, high - 0x1_0000, low);
  }

  lemma SpellsHalves(s: seq<byte>, at: nat, high: int, low: int)
    requires Spells16(s, at, high) && Spells16(s, at + 2, low) && 0 <= low < 0x1_0000
    ensures Spells32(s, at, high * 0x1_0000 + low)
    ensures Spells16(s, at, high - 0x1_0000)
  {
    DivModUnique(high * 0x1_0000 + low, 0x1_0000, high, low);
    AddTurns(low, 256, high * 256);
    AddTurns(low / 256, 256, high);
    AddTurns(high, 256, -256);
    AddTurns(high / 256, 256, -1);
  }

  /** The fields of a head, read back from the wire. */
  lemma WireFields(packetType: int, m: Message)
    requires WireSize(packetType, m) < 65535
    ensures var w := Wire(packetType, m);
            && Value16(Slice(w, 0, 2)) == WireSize(packetType, m)
            && Value16(Slice(w, 2, 2)) == U16(packetType)
            && w[HeadSize(packetType)..] == m.body
            && (HavePlus(packetType) ==>
                  && Signed16(Value16(Slice(w, 4, 2))) == m.code
                  && Signed16(Value16(Slice(w, 6, 2))) == m.reserved
                  && Signed32(Value32(Slice(w, 8, 4))) == m.seqNo)
  {
    var w := Wire(packetType, m);
    hide Bytes16, Bytes32, Value16, Value32, U16, U32, Signed16, Signed32, HavePlus;
    assert Slice(w, 0, 2) == Bytes16(WireSize(packetType, m));
    assert Slice(w, 2, 2) == Bytes16(packetType);
    Bytes16Value(WireSize(packetType, m));
    Bytes16Value(packetType);
    SmallU16(WireSize(packetType, m));
    if HavePlus(packetType) {
      assert Slice(w, 4, 2) == Bytes16(m.code as int);
      assert Slice(w, 6, 2) == Bytes16(m.reserved as int);
      assert Slice(w, 8, 4) == Bytes32(m.seqNo as int);
      Bytes16Value(m.code as int);
      Bytes16Value(m.reserved as int);
      Bytes32Value(m.seqNo as int);
      SignedBack(m.code, m.seqNo);
      SignedBack(m.reserved, m.seqNo);
    }
  }

  /** Notifications carry no code, reserved field or sequence number. */
  function Carried(packetType: int, m: Message): Message {
    if HavePlus(packetType) then m else Message(0, 0, 0, m.body)
  }

  /**
   Decoding what was encoded gives the message back exactly when the packet type fits the
   16-bit field of the head; with a wider type every packet is rejected.
   */
  lemma RoundTrip(packetType: int, m: Message, parses: seq<byte> -> bool)
    requires WireSize(packetType, m) < 65535 && parses(m.body)
    ensures Decodable(packetType, Wire(packetType, m))
    ensures Decode(packetType, Wire(packetType, m), parses)
         == (if 0 <= packetType < 0x1_0000 then Accepted(WireSize(packetType, m), Carried(packetType, m)) else Rejected)
  {
    WireFields(packetType, m);
    var w := Wire(packetType, m);
    assert w[HeadSize(packetType)..WireSize(packetType, m)] == m.body;
    TypeFits(packetType);
    hide Value16, Value32, Signed16, Signed32, Wire, Slice, HavePlus, U16;
  }

  lemma TypeFits(x: int)
    ensures U16(x) == x <==> 0 <= x < 0x1_0000
  {
  }

  /** An encoded packet is one packet of the framing rule. */
  lemma WireIsFramed(packetType: int, m: Message)
    requires WireSize(packetType, m) < 65535
    ensures Framed(Wire(packetType, m), ClientInfo)
  {
    WireFields(packetType, m);
    var w := Wire(packetType, m);
    assert Slice(w, 0, 2) == [w[0], w[1]];
  }

  // ------------------------------------------------------------ packets

  /** A body is written after the place of its head, and then the head. */
  lemma HeadThenBody(data: seq<byte>, head: seq<byte>, body: seq<byte>)
    requires |head| + |body| <= |data|
    ensures Spliced(Spliced(data, |head|, body), 0, head)[..|head| + |body|] == head + body
  {
    var r := Spliced(Spliced(data, |head|, body), 0, head);
    forall k | 0 <= k < |head| + |body|
      ensures r[k] == (head + body)[k]
    {
      SplicedAt(Spliced(data, |head|, body), 0, head, k);
      SplicedAt(data, |head|, body, k);
    }
  }

  class CsPacket {
    const packetType: int
    const parses: seq<byte> -> bool  // which byte strings the body's codec accepts
    var code: int16
    var reserved: int16
    var seqNo: int32
    var body: seq<byte>

    constructor (packetType: int, parses: seq<byte> -> bool, m: Message)
      ensures this.packetType == packetType && this.parses == parses && Fields() == m
    {
      this.packetType, this.parses := packetType, parses;
      code, reserved, seqNo, body := m.code, m.reserved, m.seqNo, m.body;
    }

    function Fields(): Message
      reads this
    {
      Message(code, reserved, seqNo, body)
    }

    /** Write the body and then the head into a buffer; -1 when it does not fit. */
    method Encode(data: array<byte>) returns (size: int)
      modifies data
      ensures Encodable(packetType, Fields(), data.Length) ==>
                size == WireSize(packetType, Fields()) && data[..size] == Wire(packetType, Fields())
      ensures !Encodable(packetType, Fields(), data.Length) ==> size == -1
      ensures size == -1 || (size == |data[..size]| && LaidOut(data[..size], packetType, Fields()))
      ensures var head := if packetType % 4 == 2 then 4 else 12;
              size != -1 <==> head < data.Length && head + |body| <= data.Length && head + |body| < 65535
    {
      PlusByLowBits(packetType);
      var head := HeadSize(packetType);
      if data.Length < head {
        return -1;
      }
      var capacity := data.Length - head;
      var written := if |body| <= capacity then |body| else capacity;
      assert written == |body| ==> body[..written] == body;
      Copy(data, head, body[..written]);
      if written < |body| || capacity == 0 {
        return -1;
      }
      size := head + written;
      if size >= 65535 {
        return -1;
      }
      var bytes := WireHead(packetType, Fields());
      hide WireHead, Spliced;
      Copy(data, 0, bytes);
      HeadThenBody(old(data[..]), bytes, body);
      WireIsLaidOut(packetType, Fields());
    }

    /** Read the fields from a packet; -1 when it is not a packet of this type. */
    method DecodeFrom(data: seq<byte>) returns (size: int)
      requires Decodable(packetType, data)
      modifies this`code, this`reserved, this`seqNo, this`body
      ensures size == match Decode(packetType, data, parses)
                      case Rejected => -1
                      case Accepted(n, _) => n
      ensures match Decode(packetType, data, parses)
              case Rejected => true
              case Accepted(_, m) => body == m.body && (HavePlus(packetType) ==> Fields() == m)
      ensures size != -1 <==> Readable(packetType, data, parses)
      ensures size != -1 ==> size <= |data| && LaidOut(data[..size], packetType, Fields())
      ensures !HavePlus(packetType) ==> code == old(code) && reserved == old(reserved) && seqNo == old(seqNo)
      ensures var head := if packetType % 4 == 2 then 4 else 12;
              if |data| < head || packetType != data[2] as int * 256 + data[3] as int then
                Fields() == old(Fields())
              else if packetType % 4 != 2 then
                Spells16(data, 4, code as int) && Spells16(data, 6, reserved as int) && Spells32(data, 8, seqNo as int)
              else true
    {
      DecodeReads(packetType, data, parses);
      PlusByLowBits(packetType);
      hide Readable;
      if |data| < HeadSize(packetType) {
        return -1;
      }
      if Value16(Slice(data, 2, 2)) != packetType {
        return -1;
      }
      size := Value16(Slice(data, 0, 2));
      if HavePlus(packetType) {
        ValueSpells(data, 4);
        ValueSpells(data, 6);
        LongValueSpells(data, 8);
        code := Signed16(Value16(Slice(data, 4, 2)));
        reserved := Signed16(Value16(Slice(data, 6, 2)));
        seqNo := Signed32(Value32(Slice(data, 8, 4)));
      }
      var bytes := data[HeadSize(packetType)..size];
      if !parses(bytes) {
        return -1;
      }
      body := bytes;
    }
  }

  // ------------------------------------------------------------ end to end

  datatype Typed = Typed(packetType: int, message: Message)

  function Wires(ps: seq<Typed>): seq<Packet> {
    if ps == [] then [] else [Wire(ps[0].packetType, ps[0].message)] + Wires(ps[1..])
  }

  lemma {:induction false} WiresFramed(ps: seq<Typed>)
    requires forall p :: p in ps ==> WireSize(p.packetType, p.message) < 65535
    ensures |Wires(ps)| == |ps| && forall i :: 0 <= i < |Wires(ps)| ==> Framed(Wires(ps)[i], ClientInfo)
  {
    if ps != [] {
      WireIsFramed(ps[0].packetType, ps[0].message);
      WiresFramed(ps[1..]);
    }
  }

  /** Encoded packets, sent one after another and received in any pieces, come out as they went in. */
  lemma PacketsSurviveFragmentation(ps: seq<Typed>, chunks: seq<seq<byte>>, verdict: Verdict)
    requires forall p :: p in ps ==> WireSize(p.packetType, p.message) < 65535
    requires Flatten(chunks) == Flatten(Wires(ps)) && AllAccepted(Wires(ps), verdict, [])
    ensures FeedAll(Parse([], [], 0), chunks, ClientInfo, verdict) == Parse(Wires(ps), [], 0)
  {
    WiresFramed(ps);
    ClientInfoStable();
    FramedStream(Wires(ps), [], ClientInfo, verdict);
    FragmentationIsInvisible(chunks, chunks, ClientInfo, verdict);
    assert [] + Wires(ps) == Wires(ps);
  }
}
