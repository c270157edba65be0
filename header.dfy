/*
 * The wire layout of an RPC packet as librpc.h documents it: a fixed
 * header of six little-endian fields (destination uuid, source uuid,
 * message id, timestamp, payload length, checksum) followed by the payload.
 *
 * This is a model of the documented format only. The code that serialises
 * and parses packets (rpc_send, rpc_packet_parse) is not part of this model;
 * neither is the checksum's algorithm, nor the in-memory struct rpc_header,
 * whose size a compiler may pad beyond the 28 bytes on the wire.
 */
module RpcHeader {
  import opened LittleEndian

  /** Byte offsets of the header fields, in their declared order. */
  const UUID_DST_OFFSET: nat := 0
  const UUID_SRC_OFFSET: nat := 4
  const MSG_ID_OFFSET: nat := 8
  const TIMESTAMP_OFFSET: nat := 12
  const PAYLOAD_LEN_OFFSET: nat := 20
  const CHECKSUM_OFFSET: nat := 24

  /** 4 + 4 + 4 + 8 + 4 + 4 bytes. */
  const HEADER_SIZE: nat := 28

  datatype Header = Header(
    uuidDst: uint32,
    uuidSrc: uint32,
    msgId: uint32,
    timestamp: uint64,
    payloadLen: uint32,
    checksum: uint32)

  datatype Packet = Packet(header: Header, payload: seq<uint8>)

  /** A packet whose payload_len field is the length of its payload. */
  predicate WellFormed(p: Packet)
  {
    p.header.payloadLen as nat == |p.payload|
  }

  /** A uint32_t field on the wire: 4 bytes, least-significant first. */
  function EncodeU32(x: uint32): (s: seq<uint8>)
    ensures |s| == 4
    ensures s[0] as int == x as int % 0x100
    ensures s[3] as int == x as int / 0x100_0000
  {
    ToBytesDigits(x as nat, 4, 0);
    ToBytesDigits(x as nat, 4, 3);
    assert Pow256(3) == 0x100_0000;
    ToBytes(x as nat, 4)
  }

  /** Reads a uint32_t field; every 4 bytes are the encoding of the value they read as. */
  function DecodeU32(s: seq<uint8>): (x: uint32)
    requires |s| == 4
    ensures EncodeU32(x) == s
  {
    assert Pow256(4) == 0x1_0000_0000;
    ToFromBytes(s);
    FromBytes(s) as uint32
  }

  /** The uint64_t timestamp on the wire: 8 bytes, least-significant first. */
  function EncodeU64(x: uint64): (s: seq<uint8>)
    ensures |s| == 8
    ensures s[0] as int == x as int % 0x100
    ensures s[7] as int == x as int / 0x100_0000_0000_0000
  {
    ToBytesDigits(x as nat, 8, 0);
    ToBytesDigits(x as nat, 8, 7);
    assert Pow256(7) == 0x100_0000_0000_0000;
    ToBytes(x as nat, 8)
  }

  /** Reads the uint64_t timestamp; every 8 bytes are the encoding of the value they read as. */
  function DecodeU64(s: seq<uint8>): (x: uint64)
    requires |s| == 8
    ensures EncodeU64(x) == s
  {
    assert Pow256(8) == 0x1_0000_0000_0000_0000;
    ToFromBytes(s);
    FromBytes(s) as uint64
  }

  lemma {:induction false} U32RoundTrip(x: uint32)
    ensures DecodeU32(EncodeU32(x)) == x
  {
    assert Pow256(4) == 0x1_0000_0000;
    FromToBytes(x as nat, 4);
  }

  lemma {:induction false} U64RoundTrip(x: uint64)
    ensures DecodeU64(EncodeU64(x)) == x
  {
    assert Pow256(8) == 0x1_0000_0000_0000_0000;
    FromToBytes(x as nat, 8);
  }

  /**
   * The 28 header bytes: each field is found at its offset, in the declared
   * order, least-significant byte first.
   */
  function EncodeHeader(h: Header): (s: seq<uint8>)
    ensures |s| == HEADER_SIZE
    ensures DecodeU32(s[UUID_DST_OFFSET..UUID_DST_OFFSET + 4]) == h.uuidDst
    ensures DecodeU32(s[UUID_SRC_OFFSET..UUID_SRC_OFFSET + 4]) == h.uuidSrc
    ensures DecodeU32(s[MSG_ID_OFFSET..MSG_ID_OFFSET + 4]) == h.msgId
    ensures DecodeU64(s[TIMESTAMP_OFFSET..TIMESTAMP_OFFSET + 8]) == h.timestamp
    ensures DecodeU32(s[PAYLOAD_LEN_OFFSET..PAYLOAD_LEN_OFFSET + 4]) == h.payloadLen
    ensures DecodeU32(s[CHECKSUM_OFFSET..CHECKSUM_OFFSET + 4]) == h.checksum
    ensures s[MSG_ID_OFFSET] as int == h.msgId as int % 256
  {
    var s := EncodeU32(h.uuidDst) + EncodeU32(h.uuidSrc) + EncodeU32(h.msgId)
      + EncodeU64(h.timestamp) + EncodeU32(h.payloadLen) + EncodeU32(h.checksum);
    assert s[UUID_DST_OFFSET..UUID_DST_OFFSET + 4] == EncodeU32(h.uuidDst);
    assert s[UUID_SRC_OFFSET..UUID_SRC_OFFSET + 4] == EncodeU32(h.uuidSrc);
    assert s[MSG_ID_OFFSET..MSG_ID_OFFSET + 4] == EncodeU32(h.msgId);
    assert s[TIMESTAMP_OFFSET..TIMESTAMP_OFFSET + 8] == EncodeU64(h.timestamp);
    assert s[PAYLOAD_LEN_OFFSET..PAYLOAD_LEN_OFFSET + 4] == EncodeU32(h.payloadLen);
    assert s[CHECKSUM_OFFSET..CHECKSUM_OFFSET + 4] == EncodeU32(h.checksum);
    U32RoundTrip(h.uuidDst);
    U32RoundTrip(h.uuidSrc);
    U32RoundTrip(h.msgId);
    U64RoundTrip(h.timestamp);
    U32RoundTrip(h.payloadLen);
    U32RoundTrip(h.checksum);
    s
  }

  /**
   * The header held in the first 28 bytes of s: each field is the value
   * whose little-endian encoding is the bytes at its offset.
   */
  function DecodeHeader(s: seq<uint8>): (h: Header)
    requires |s| >= HEADER_SIZE
    ensures EncodeU32(h.uuidDst) == s[UUID_DST_OFFSET..UUID_DST_OFFSET + 4]
    ensures EncodeU32(h.uuidSrc) == s[UUID_SRC_OFFSET..UUID_SRC_OFFSET + 4]
    ensures EncodeU32(h.msgId) == s[MSG_ID_OFFSET..MSG_ID_OFFSET + 4]
    ensures EncodeU64(h.timestamp) == s[TIMESTAMP_OFFSET..TIMESTAMP_OFFSET + 8]
    ensures EncodeU32(h.payloadLen) == s[PAYLOAD_LEN_OFFSET..PAYLOAD_LEN_OFFSET + 4]
    ensures EncodeU32(h.checksum) == s[CHECKSUM_OFFSET..CHECKSUM_OFFSET + 4]
  {
    Header(
      DecodeU32(s[UUID_DST_OFFSET..UUID_DST_OFFSET + 4]),
      DecodeU32(s[UUID_SRC_OFFSET..UUID_SRC_OFFSET + 4]),
      DecodeU32(s[MSG_ID_OFFSET..MSG_ID_OFFSET + 4]),
      DecodeU64(s[TIMESTAMP_OFFSET..TIMESTAMP_OFFSET + 8]),
      DecodeU32(s[PAYLOAD_LEN_OFFSET..PAYLOAD_LEN_OFFSET + 4]),
      DecodeU32(s[CHECKSUM_OFFSET..CHECKSUM_OFFSET + 4]))
  }

  /** The header of a stream is read from its first 28 bytes alone. */
  lemma {:induction false} DecodeHeaderReadsPrefix(s: seq<uint8>, t: seq<uint8>)
    requires |s| >= HEADER_SIZE && |t| >= HEADER_SIZE
    requires s[..HEADER_SIZE] == t[..HEADER_SIZE]
    ensures DecodeHeader(s) == DecodeHeader(t)
  {
    SliceOfPrefix(s, t, UUID_DST_OFFSET, UUID_DST_OFFSET + 4);
    SliceOfPrefix(s, t, UUID_SRC_OFFSET, UUID_SRC_OFFSET + 4);
    SliceOfPrefix(s, t, MSG_ID_OFFSET, MSG_ID_OFFSET + 4);
    SliceOfPrefix(s, t, TIMESTAMP_OFFSET, TIMESTAMP_OFFSET + 8);
    SliceOfPrefix(s, t, PAYLOAD_LEN_OFFSET, PAYLOAD_LEN_OFFSET + 4);
    SliceOfPrefix(s, t, CHECKSUM_OFFSET, CHECKSUM_OFFSET + 4);
  }

  lemma SliceOfPrefix(s: seq<uint8>, t: seq<uint8>, a: nat, b: nat)
    requires a <= b <= HEADER_SIZE <= |s| && HEADER_SIZE <= |t|
    requires s[..HEADER_SIZE] == t[..HEADER_SIZE]
    ensures s[a..b] == t[a..b]
  {
    assert forall k :: a <= k < b ==> s[k] == s[..HEADER_SIZE][k] == t[..HEADER_SIZE][k] == t[k];
  }

  /** Decoding an encoded header gives back all six fields. */
  lemma HeaderRoundTrip(h: Header)
    ensures DecodeHeader(EncodeHeader(h)) == h
  {
  }

  /** Every 28 bytes are the encoding of the header they decode to. */
  lemma {:induction false} HeaderBytesRoundTrip(s: seq<uint8>)
    requires |s| == HEADER_SIZE
    ensures EncodeHeader(DecodeHeader(s)) == s
  {
    var h := DecodeHeader(s);
    assert s == s[0..4] + s[4..8] + s[8..12] + s[12..20] + s[20..24] + s[24..28];
  }

  /** [rpc_header][rpc_payload]: the header bytes, then the payload bytes. */
  function EncodePacket(p: Packet): (s: seq<uint8>)
    ensures |s| == HEADER_SIZE + |p.payload|
    ensures DecodeHeader(s) == p.header
    ensures s[HEADER_SIZE..] == p.payload
  {
    var hs := EncodeHeader(p.header);
    HeaderRoundTrip(p.header);
    assert (hs + p.payload)[..HEADER_SIZE] == hs[..HEADER_SIZE];
    DecodeHeaderReadsPrefix(hs + p.payload, hs);
    hs + p.payload
  }

  datatype ParseResult =
    | Parsed(packet: Packet, rest: seq<uint8>)
    | Truncated

  /**
   * Takes one packet off the front of a byte stream. The stream is
   * Truncated while it holds fewer than 28 bytes, or fewer than the 28
   * header bytes plus the payload length the header declares; otherwise the
   * packet is split off and the bytes after it are left for the next one.
   */
  function ParsePacket(s: seq<uint8>): (r: ParseResult)
    ensures r.Truncated? <==> |s| < HEADER_SIZE || |s| < HEADER_SIZE + DecodeHeader(s).payloadLen as nat
    ensures r.Parsed? ==> WellFormed(r.packet) && EncodePacket(r.packet) + r.rest == s
  {
    if |s| < HEADER_SIZE then Truncated
    else
      var h := DecodeHeader(s);
      var end := HEADER_SIZE + h.payloadLen as nat;
      if |s| < end then Truncated
      else
        var p := Packet(h, s[HEADER_SIZE..end]);
        HeaderBytesRoundTrip(s[..HEADER_SIZE]);
        DecodeHeaderReadsPrefix(s[..HEADER_SIZE], s);
        assert EncodePacket(p) == s[..end];
        Parsed(p, s[end..])
  }

  /** A well-formed packet, followed by any bytes, parses back to itself and those bytes. */
  lemma {:induction false} ParseEncodedPacket(p: Packet, rest: seq<uint8>)
    requires WellFormed(p)
    ensures ParsePacket(EncodePacket(p) + rest) == Parsed(p, rest)
  {
    var s := EncodePacket(p) + rest;
    assert s[..HEADER_SIZE + |p.payload|] == EncodePacket(p);
    assert s[..HEADER_SIZE] == EncodePacket(p)[..HEADER_SIZE];
    DecodeHeaderReadsPrefix(s, EncodePacket(p));
    assert s[HEADER_SIZE..HEADER_SIZE + |p.payload|] == p.payload;
  }

  /**
   * Parsing is stable as bytes arrive: once the front of the stream holds a
   * whole packet, more bytes behind it change only what is left over.
   */
  lemma {:induction false} ParseIgnoresLaterBytes(s: seq<uint8>, more: seq<uint8>)
    requires ParsePacket(s).Parsed?
    ensures ParsePacket(s + more) == Parsed(ParsePacket(s).packet, ParsePacket(s).rest + more)
  {
    var r := ParsePacket(s);
    ParseEncodedPacket(r.packet, r.rest + more);
    assert s + more == EncodePacket(r.packet) + (r.rest + more);
  }
}
