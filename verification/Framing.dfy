/**
 The framing rule: how a stream of bytes falls into packets, whatever pieces it arrives
 in (framework/tcp_data_handler.cpp, bench_client/client_connection.cpp).
 */
module Framing {
  import opened Bytes

  type Packet = seq<byte>

  const CS_HEAD_SIZE := 4
  const MAX_PACKET_SIZE := 4194304
  const ERROR_TYPE_REQUEST := 3

  /** The answer of `process_packet` to the last of the packets handed to it so far; zero is success. */
  type Verdict = seq<Packet> -> int

  function Word(high: byte, low: byte): int {
    high as int * 256 + low as int
  }

  /** What `get_packet_info` answers: its return value, and the size it stores. */
  datatype Info = Info(code: int, size: int)

  /** A connection's own `get_packet_info`, called on the bytes at the front of the buffer. */
  type PacketInfo = seq<byte> -> Info

  /** An answer that asks for more bytes than there are. */
  predicate Waits(data: seq<byte>, i: Info) {
    i.code == 0 && |data| < i.size <= MAX_PACKET_SIZE
  }

  /** Once it asks for no more, the answer does not change when more bytes come. */
  ghost predicate Stable(info: PacketInfo) {
    forall s, t :: s != [] && !Waits(s, info(s)) ==> info(s + t) == info(s)
  }

  /** The client's `get_packet_info`: the size announced in the head, or the size of a head while that is incomplete. */
  function PacketSize(data: seq<byte>): (n: int)
    ensures 0 <= n < 65536
    ensures |data| < 4 ==> n == 4
    ensures |data| >= 4 ==> Spells16(data, 0, n)
  {
    if |data| < CS_HEAD_SIZE then CS_HEAD_SIZE else Word(data[0], data[1])
  }

  function ClientInfo(data: seq<byte>): Info {
    Info(0, PacketSize(data))
  }

  lemma ClientInfoStable()
    ensures Stable(ClientInfo)
  {
    forall s: seq<byte>, t: seq<byte> | s != [] && !Waits(s, ClientInfo(s))
      ensures ClientInfo(s + t) == ClientInfo(s)
    {
      assert |s| >= CS_HEAD_SIZE;
    }
  }

  /** What has been handed over, what is left in the buffer, and the error raised, if any. */
  datatype Parse = Parse(delivered: seq<Packet>, rest: seq<byte>, error: int)

  /** Take packets off the front of `data`, after those already delivered, until more bytes are needed. */
  function Extract(data: seq<byte>, delivered: seq<Packet>, info: PacketInfo, verdict: Verdict): Parse
    decreases |data|
  {
    if data == [] then Parse(delivered, data, 0)
    else
      var n := info(data).size;
      if info(data).code != 0 then Parse(delivered, data, info(data).code)
      else if n < 1 || n > MAX_PACKET_SIZE then Parse(delivered, data, ERROR_TYPE_REQUEST)
      else if |data| >= n then
        var delivered' := delivered + [data[..n]];
        if verdict(delivered') != 0 then Parse(delivered', data, verdict(delivered'))
        else Extract(data[n..], delivered', info, verdict)
      else Parse(delivered, data, 0)
  }

  /** What is left over waits for more bytes, and tells how many it needs in all. */
  lemma {:induction false} RestWaits(data: seq<byte>, delivered: seq<Packet>, info: PacketInfo, verdict: Verdict)
    ensures var r := Extract(data, delivered, info, verdict);
            r.error == 0 && r.rest != [] ==> Waits(r.rest, info(r.rest))
    decreases |data|
  {
    if data != [] {
      var n := info(data).size;
      if info(data).code == 0 && 1 <= n <= |data| && n <= MAX_PACKET_SIZE && verdict(delivered + [data[..n]]) == 0 {
        RestWaits(data[n..], delivered + [data[..n]], info, verdict);
      }
    }
  }

  /** Where a run stands after more bytes: an error is final, otherwise parsing goes on from the rest. */
  function Feed(r: Parse, more: seq<byte>, info: PacketInfo, verdict: Verdict): Parse {
    if r.error != 0 then r.(rest := r.rest + more) else Extract(r.rest + more, r.delivered, info, verdict)
  }

  /** Parsing a stream in one go is parsing a part of it and then feeding in the rest. */
  lemma {:induction false} ExtractInParts(s: seq<byte>, t: seq<byte>, delivered: seq<Packet>, info: PacketInfo, verdict: Verdict)
    requires Stable(info)
    ensures Extract(s + t, delivered, info, verdict) == Feed(Extract(s, delivered, info, verdict), t, info, verdict)
    decreases |s|
  {
    if s == [] {
      assert s + t == t;
    } else if !Waits(s, info(s)) {
      assert info(s + t) == info(s);
      var n := info(s).size;
      if info(s).code == 0 && 1 <= n <= |s| && n <= MAX_PACKET_SIZE {
        assert (s + t)[..n] == s[..n];
        assert (s + t)[n..] == s[n..] + t;
        if verdict(delivered + [s[..n]]) == 0 {
          ExtractInParts(s[n..], t, delivered + [s[..n]], info, verdict);
        }
      }
    }
  }

  function Flatten(chunks: seq<seq<byte>>): seq<byte> {
    if chunks == [] then [] else chunks[0] + Flatten(chunks[1..])
  }

  /**
   `data` came apart into the packets that `r` has over `delivered`, and its rest.  A
   refused packet stays at the front of the rest.  The error is that of a refused packet,
   or of what is left: that of the framing rule, or 3 for a size that no packet has.
   */
  ghost predicate ComesApart(data: seq<byte>, delivered: seq<Packet>, r: Parse, info: PacketInfo, verdict: Verdict) {
    && delivered <= r.delivered
    && (forall i :: |delivered| < i < |r.delivered| ==> verdict(r.delivered[..i]) == 0)
    && var taken := r.delivered[|delivered|..];
       if taken != [] && verdict(r.delivered) != 0 then
         && r.error == verdict(r.delivered)
         && data == Flatten(taken[..|taken| - 1]) + r.rest && taken[|taken| - 1] <= r.rest
       else
         && data == Flatten(taken) + r.rest
         && r.error == if r.rest == [] then 0
                       else if info(r.rest).code != 0 then info(r.rest).code
                       else if 1 <= info(r.rest).size <= 4194304 then 0 else 3
  }

  /** Nothing is lost or made up: packets and rest are the data, in order, and the error says why it stopped. */
  lemma {:induction false} ExtractConserves(data: seq<byte>, delivered: seq<Packet>, info: PacketInfo, verdict: Verdict)
    ensures ComesApart(data, delivered, Extract(data, delivered, info, verdict), info, verdict)
    decreases |data|
  {
    var n := info(data).size;
    if data != [] && info(data).code == 0 && 1 <= n <= |data| && n <= MAX_PACKET_SIZE {
      assert data == data[..n] + data[n..];
      if verdict(delivered + [data[..n]]) == 0 {
        hide ComesApart;
        ExtractConserves(data[n..], delivered + [data[..n]], info, verdict);
        OneMore(data[..n], data[n..], delivered, Extract(data, delivered, info, verdict), info, verdict);
      } else {
        assert (delivered + [data[..n]])[|delivered|..] == [data[..n]];
      }
    } else {
      assert delivered[|delivered|..] == [];
    }
  }

  /** One more packet in front. */
  lemma OneMore(p: Packet, more: seq<byte>, delivered: seq<Packet>, r: Parse, info: PacketInfo, verdict: Verdict)
    requires ComesApart(more, delivered + [p], r, info, verdict) && verdict(delivered + [p]) == 0
    ensures ComesApart(p + more, delivered, r, info, verdict)
  {
    var later, taken := r.delivered[|delivered + [p]|..], r.delivered[|delivered|..];
    assert r.delivered[..|delivered| + 1] == delivered + [p];
    assert taken[0] == (delivered + [p])[|delivered|] && taken[1..] == later;
    if later == [] {
      assert r.delivered == delivered + [p];
      assert taken == [p] && Flatten([p]) == p;
    } else {
      assert taken[..|taken| - 1][1..] == later[..|later| - 1];
    }
  }

  function FeedAll(r: Parse, chunks: seq<seq<byte>>, info: PacketInfo, verdict: Verdict): Parse
    decreases |chunks|
  {
    if chunks == [] then r else FeedAll(Feed(r, chunks[0], info, verdict), chunks[1..], info, verdict)
  }

  /** Feeding a stream in pieces, however cut, is feeding it whole. */
  lemma {:induction false} FeedAllIsFeed(r: Parse, chunks: seq<seq<byte>>, info: PacketInfo, verdict: Verdict)
    requires Stable(info) && (r == Extract(r.rest, r.delivered, info, verdict) || r.error != 0)
    ensures FeedAll(r, chunks, info, verdict) == Feed(r, Flatten(chunks), info, verdict)
    decreases |chunks|
  {
    if chunks == [] {
      assert r.rest + [] == r.rest;
    } else {
      var r', t := Feed(r, chunks[0], info, verdict), Flatten(chunks[1..]);
      assert r.rest + (chunks[0] + t) == (r.rest + chunks[0]) + t;
      if r.error == 0 {
        ExtractInParts(r.rest + chunks[0], t, r.delivered, info, verdict);
        ExtractAgain(r.rest + chunks[0], r.delivered, info, verdict);
      }
      FeedAllIsFeed(r', chunks[1..], info, verdict);
    }
  }

  /** Parsing what is left over again finds nothing new. */
  lemma {:induction false} ExtractAgain(data: seq<byte>, delivered: seq<Packet>, info: PacketInfo, verdict: Verdict)
    ensures var r := Extract(data, delivered, info, verdict);
            r.error == 0 ==> Extract(r.rest, r.delivered, info, verdict) == r
    decreases |data|
  {
    if data != [] {
      var n := info(data).size;
      if info(data).code == 0 && 1 <= n <= |data| && n <= MAX_PACKET_SIZE && verdict(delivered + [data[..n]]) == 0 {
        ExtractAgain(data[n..], delivered + [data[..n]], info, verdict);
      }
    }
  }

  /**
   For any stable rule, the delivered packets, the error and the left-over bytes depend only on the stream, not
   on how it was cut: two fragmentations of the same stream agree.
   */
  lemma FragmentationIsInvisible(chunks: seq<seq<byte>>, chunks': seq<seq<byte>>, info: PacketInfo, verdict: Verdict)
    requires Stable(info) && Flatten(chunks) == Flatten(chunks')
    ensures FeedAll(Parse([], [], 0), chunks, info, verdict) == FeedAll(Parse([], [], 0), chunks', info, verdict)
    ensures FeedAll(Parse([], [], 0), chunks, info, verdict) == Extract(Flatten(chunks), [], info, verdict)
  {
    var start := Parse([], [], 0);
    assert start == Extract(start.rest, start.delivered, info, verdict);
    FeedAllIsFeed(start, chunks, info, verdict);
    FeedAllIsFeed(start, chunks', info, verdict);
    assert start.rest + Flatten(chunks) == Flatten(chunks);
  }

  /** A byte string that the framing rule takes for exactly one packet. */
  predicate Framed(p: Packet, info: PacketInfo) {
    p != [] && info(p) == Info(0, |p|) && |p| <= MAX_PACKET_SIZE
  }

  predicate AllAccepted(packets: seq<Packet>, verdict: Verdict, delivered: seq<Packet>) {
    forall i :: 0 < i <= |packets| ==> verdict(delivered + packets[..i]) == 0
  }

  /** A concatenation of framed packets comes apart into just those packets. */
  lemma {:induction false} FramedStream(packets: seq<Packet>, delivered: seq<Packet>, info: PacketInfo, verdict: Verdict)
    requires Stable(info) && forall i :: 0 <= i < |packets| ==> Framed(packets[i], info)
    requires AllAccepted(packets, verdict, delivered)
    ensures Extract(Flatten(packets), delivered, info, verdict) == Parse(delivered + packets, [], 0)
    decreases |packets|
  {
    if packets != [] {
      var p, rest := packets[0], packets[1..];
      var data := Flatten(packets);
      assert Framed(p, info) && data == p + Flatten(rest) && info(data) == info(p);
      assert data[..|p|] == p && data[|p|..] == Flatten(rest);
      assert packets[..1] == [p];
      forall i | 0 < i <= |rest|
        ensures verdict(delivered + [p] + rest[..i]) == 0
      {
        assert delivered + [p] + rest[..i] == delivered + packets[..i + 1];
      }
      FramedStream(rest, delivered + [p], info, verdict);
      assert delivered + [p] + rest == delivered + packets;
    } else {
      assert delivered + packets == delivered;
    }
  }
}
