/**
 * The BitChat routing envelope (protocol/bitchat_protocol.h, BitchatPacket) and
 * its wire codec (protocol/bitchat_protocol.c, bitchat_packet_encode and
 * bitchat_packet_decode).
 *
 * Wire layout, in order: version, type, ttl (one byte each), timestamp (u64,
 * big-endian), flags (one byte), payload length (u16, big-endian), sender id
 * (8 bytes), recipient id (8 bytes, only when flagged), payload, signature
 * (64 bytes, only when flagged).
 */
module Packet {
  import opened Bytes
  import opened Wrappers

  const Version: Byte := 1
  const HeaderSize: nat := 13
  const SenderIdSize: nat := 8
  const RecipientIdSize: nat := 8
  const SignatureSize: nat := 64
  const MaxPayloadSize: nat := 65535
  const MaxPacketSize: nat := HeaderSize + SenderIdSize + RecipientIdSize + MaxPayloadSize + SignatureSize
  /** The shortest input decode accepts past its first check: the declared header plus the sender id. */
  const MinPacketSize: nat := HeaderSize + SenderIdSize
  /**
   * The fixed header the codec actually reads and writes: version, type, ttl (3),
   * timestamp (8), flags (1), payload length (2). One more than HeaderSize.
   */
  const WireHeaderSize: nat := 3 + 8 + 1 + 2

  // Packet type codes. The codec stores the type byte as it is and never checks it against them.
  const TypePublicMessage: Byte := 0x01
  const TypePrivateMessage: Byte := 0x02
  const TypeAnnouncement: Byte := 0x03
  const TypeSyncRequest: Byte := 0x04
  const TypeSyncResponse: Byte := 0x05
  const TypeNoiseHandshake: Byte := 0x06
  const TypeDeliveryAck: Byte := 0x07

  const FlagHasRecipient: bv8 := 0x01
  const FlagHasSignature: bv8 := 0x02
  const FlagIsCompressed: bv8 := 0x04

  predicate HasFlag(flags: Byte, bit: bv8)
  {
    (flags as bv8) & bit != 0
  }

  /**
   * The C struct. `payload` is the heap pointer: None is NULL. The three
   * fixed arrays are sequences of their array length (see WellFormed).
   */
  datatype Packet = Packet(
    version: Byte,
    ptype: Byte,
    ttl: Byte,
    timestamp: U64,
    flags: Byte,
    payloadLength: U16,
    senderId: seq<Byte>,
    recipientId: seq<Byte>,
    payload: Option<seq<Byte>>,
    signature: seq<Byte>,
    hasRecipient: bool,
    hasSignature: bool,
    isCompressed: bool)

  /** What the C types guarantee: array sizes, and a non-NULL payload holds payload_length readable bytes. */
  predicate WellFormed(p: Packet)
  {
    && |p.senderId| == SenderIdSize
    && |p.recipientId| == RecipientIdSize
    && |p.signature| == SignatureSize
    && (p.payload.Some? ==> |p.payload.value| >= p.payloadLength)
  }

  /** The flags byte encode writes: bit 0 has-recipient, bit 1 has-signature, bit 2 is-compressed. */
  function FlagsOf(p: Packet): (f: Byte)
    ensures f < 8
    ensures HasFlag(f, FlagHasRecipient) == p.hasRecipient
    ensures HasFlag(f, FlagHasSignature) == p.hasSignature
    ensures HasFlag(f, FlagIsCompressed) == p.isCompressed
  {
    var f0: bv8 := 0;
    var f1 := if p.hasRecipient then f0 | FlagHasRecipient else f0;
    var f2 := if p.hasSignature then f1 | FlagHasSignature else f1;
    var f3 := if p.isCompressed then f2 | FlagIsCompressed else f2;
    f3 as int
  }

  /** `required_size` as bitchat_packet_encode computes it, from the 13-byte HeaderSize. */
  function RequiredSizeAsWritten(p: Packet): (r: nat)
    ensures MinPacketSize <= r <= MaxPacketSize
    ensures r == MaxPacketSize <==> p.hasRecipient && p.hasSignature && p.payloadLength == MaxPayloadSize
  {
    HeaderSize + SenderIdSize + p.payloadLength
      + (if p.hasRecipient then RecipientIdSize else 0)
      + (if p.hasSignature then SignatureSize else 0)
  }

  /** The size the encoder really needs: the same formula over the 14 header bytes it writes. */
  function RequiredSize(p: Packet): (r: nat)
    ensures r == RequiredSizeAsWritten(p) + 1
    ensures MinPacketSize < r <= MaxPacketSize + 1
  {
    WireHeaderSize + SenderIdSize + p.payloadLength
      + (if p.hasRecipient then RecipientIdSize else 0)
      + (if p.hasSignature then SignatureSize else 0)
  }

  /** The fixed header, as written: 14 bytes. */
  function HeaderBytes(p: Packet): (r: seq<Byte>)
    ensures |r| == WireHeaderSize
  {
    [p.version, p.ptype, p.ttl] + BeBytes(p.timestamp, 8) + [FlagsOf(p)] + EncodeU16Be(p.payloadLength)
  }

  /** The payload section: copied only when the pointer is non-NULL and the length is positive. */
  function PayloadBytes(p: Packet): (r: seq<Byte>)
    requires WellFormed(p)
    ensures |r| == if p.payload.Some? then p.payloadLength else 0
  {
    if p.payload.Some? && p.payloadLength > 0 then p.payload.value[..p.payloadLength] else []
  }

  /** The bytes bitchat_packet_encode writes for p when the buffer is large enough. */
  function PacketBytes(p: Packet): (r: seq<Byte>)
    requires WellFormed(p)
    ensures |r| == RequiredSize(p) - (if p.payload.None? then p.payloadLength else 0)
  {
    HeaderBytes(p) + p.senderId
      + (if p.hasRecipient then p.recipientId else [])
      + PayloadBytes(p)
      + (if p.hasSignature then p.signature else [])
  }

  /**
   * bitchat_packet_encode with its size check made consistent with what it writes:
   * returns 0 and leaves the buffer alone when bufferSize is below RequiredSize(p)
   * (the source compares against RequiredSizeAsWritten(p), one byte less);
   * otherwise writes PacketBytes(p) at the start of the buffer and returns its
   * length. Bytes after it are untouched.
   */
  method PacketEncode(p: Packet, buffer: array<Byte>, bufferSize: nat) returns (n: nat)
    requires WellFormed(p)
    requires bufferSize <= buffer.Length
    modifies buffer
    ensures bufferSize < RequiredSize(p) ==> n == 0 && buffer[..] == old(buffer[..])
    ensures bufferSize >= RequiredSize(p) ==>
              n == |PacketBytes(p)| && buffer[..] == PacketBytes(p) + old(buffer[..])[n..]
  {
    var required := WireHeaderSize + SenderIdSize + p.payloadLength;
    if p.hasRecipient { required := required + RecipientIdSize; }
    if p.hasSignature { required := required + SignatureSize; }
    if bufferSize < required {
      return 0;
    }
    ghost var orig := buffer[..];
    WriteHeader(p, buffer);
    n := WriteSections(p, buffer, orig);
  }

  /** The sections after the header: sender id, recipient id, payload and signature, each when present. */
  method WriteSections(p: Packet, buffer: array<Byte>, ghost orig: seq<Byte>) returns (n: nat)
    requires WellFormed(p) && |PacketBytes(p)| <= buffer.Length == |orig|
    requires buffer[..] == HeaderBytes(p) + orig[WireHeaderSize..]
    modifies buffer
    ensures n == |PacketBytes(p)| && buffer[..] == PacketBytes(p) + orig[n..]
  {
    var offset := WireHeaderSize;
    ghost var written := HeaderBytes(p);

    Put(buffer, offset, p.senderId, written, orig);
    offset, written := offset + SenderIdSize, written + p.senderId;

    if p.hasRecipient {
      Put(buffer, offset, p.recipientId, written, orig);
      offset, written := offset + RecipientIdSize, written + p.recipientId;
    }

    if p.payload.Some? && p.payloadLength > 0 {
      Put(buffer, offset, p.payload.value[..p.payloadLength], written, orig);
      offset, written := offset + p.payloadLength, written + p.payload.value[..p.payloadLength];
    }
    assert written == HeaderBytes(p) + p.senderId + (if p.hasRecipient then p.recipientId else [])
                      + PayloadBytes(p);

    if p.hasSignature {
      Put(buffer, offset, p.signature, written, orig);
      offset, written := offset + SignatureSize, written + p.signature;
    }
    assert written == PacketBytes(p);
    n := offset;
  }

  /** The header part of bitchat_packet_encode: 14 bytes at the start of the buffer. */
  method WriteHeader(p: Packet, buffer: array<Byte>)
    requires WireHeaderSize <= buffer.Length
    modifies buffer
    ensures buffer[..] == HeaderBytes(p) + old(buffer[..])[WireHeaderSize..]
  {
    ghost var orig := buffer[..];
    WriteFront(p, buffer);
    ghost var written := [p.version, p.ptype, p.ttl] + BeBytes(p.timestamp, 8);
    var offset := 11;
    var flags := FlagsOf(p);
    Put(buffer, offset, [flags], written, orig);
    offset, written := offset + 1, written + [flags];
    Put(buffer, offset, EncodeU16Be(p.payloadLength), written, orig);
    assert written + EncodeU16Be(p.payloadLength) == HeaderBytes(p);
  }

  /** Version, type and TTL, one byte each, then the 8-byte timestamp. */
  method WriteFront(p: Packet, buffer: array<Byte>)
    requires WireHeaderSize <= buffer.Length
    modifies buffer
    ensures buffer[..] == ([p.version, p.ptype, p.ttl] + BeBytes(p.timestamp, 8)) + old(buffer[..])[11..]
  {
    ghost var orig := buffer[..];
    buffer[0] := p.version;
    buffer[1] := p.ptype;
    buffer[2] := p.ttl;
    assert buffer[..] == [p.version, p.ptype, p.ttl] + orig[3..];
    PutU64(buffer, 3, p.timestamp, [p.version, p.ptype, p.ttl], orig);
  }

  datatype DecodeError = TooShort | UnsupportedVersion | Truncated

  /** `ReadPastEnd`: the source would read beyond data_size (undefined behaviour in C). */
  datatype Status = Success | Failure(error: DecodeError) | ReadPastEnd

  /** What bitchat_packet_decode reports and what the caller's struct holds when it returns. */
  datatype Decoded = Decoded(status: Status, out: Packet)

  /**
   * bitchat_packet_decode on `data`, writing into a struct that held `into`.
   * Fields are written as they are parsed, so a failure leaves the fields
   * parsed before it in place (notably `version` on a version mismatch), and a
   * recipient or signature that is not flagged keeps its old contents.
   *
   * The source checks only for MinPacketSize (21) bytes but then reads the 22
   * bytes of header and sender id. With `guarded` false this is the source as
   * written (a 21-byte input reads past its end); with `guarded` true a
   * 21-byte input is rejected as Truncated before the sender id is read.
   */
  function DecodeWith(data: seq<Byte>, into: Packet, guarded: bool): (r: Decoded)
    ensures r.status == Failure(TooShort) <==> |data| < MinPacketSize
    ensures r.status == ReadPastEnd <==> !guarded && |data| == MinPacketSize && data[0] == Version
    ensures r.status.Success? ==> data[0] == Version && |r.out.senderId| == SenderIdSize
  {
    if |data| < MinPacketSize then Decoded(Failure(TooShort), into)
    else if data[0] != Version then Decoded(Failure(UnsupportedVersion), into.(version := data[0]))
    else
      var header := ParseHeader(data, into);
      if |data| < WireHeaderSize + SenderIdSize then
        // Only a 21-byte input gets here: the header is readable, the sender id is not.
        if guarded then Decoded(Failure(Truncated), header) else Decoded(ReadPastEnd, header)
      else
        DecodeSections(data, header.(senderId := data[WireHeaderSize..WireHeaderSize + SenderIdSize]))
  }

  /** The struct after the 14 header bytes have been parsed into it. */
  function ParseHeader(data: seq<Byte>, into: Packet): (h: Packet)
    requires |data| >= WireHeaderSize
    ensures h.senderId == into.senderId && h.recipientId == into.recipientId
    ensures h.payload == into.payload && h.signature == into.signature
  {
    into.(
      version := data[0],
      ptype := data[1],
      ttl := data[2],
      timestamp := BeU64(data[3..11]),
      hasRecipient := HasFlag(data[11], FlagHasRecipient),
      hasSignature := HasFlag(data[11], FlagHasSignature),
      isCompressed := HasFlag(data[11], FlagIsCompressed),
      flags := data[11],
      payloadLength := DecodeU16Be(data[12..]))
  }

  /** The flag-driven part of decode, after header and sender id: recipient, payload, signature. */
  function DecodeSections(data: seq<Byte>, h: Packet): (r: Decoded)
    requires |data| >= WireHeaderSize + SenderIdSize
    ensures r.status.Success? || r.status == Failure(Truncated)
    ensures r.out.senderId == h.senderId
    ensures r.status.Success? ==> && (h.hasRecipient ==> |r.out.recipientId| == RecipientIdSize)
                                  && (h.hasSignature ==> |r.out.signature| == SignatureSize)
                                  && (r.out.payload.Some? ==> |r.out.payload.value| == h.payloadLength > 0)
  {
    var start := WireHeaderSize + SenderIdSize;
    if h.hasRecipient && start + RecipientIdSize > |data| then Decoded(Failure(Truncated), h)
    else
      var withRecipient := if h.hasRecipient then h.(recipientId := data[start..start + RecipientIdSize]) else h;
      var payloadStart := if h.hasRecipient then start + RecipientIdSize else start;
      var len := h.payloadLength;
      if payloadStart + len > |data| then Decoded(Failure(Truncated), withRecipient)
      else
        var withPayload := withRecipient.(payload := if len > 0 then Some(data[payloadStart..payloadStart + len]) else None);
        var sigStart := payloadStart + len;
        if h.hasSignature && sigStart + SignatureSize > |data| then Decoded(Failure(Truncated), withPayload)
        else if h.hasSignature then Decoded(Success, withPayload.(signature := data[sigStart..sigStart + SignatureSize]))
        else Decoded(Success, withPayload)
  }

  /**
   * The decoder the rest of the model uses: the source with the missing sender-id bound added.
   * Every slice it takes is in bounds by DecodeWith's own well-formedness checks; the ensures
   * records that the read-past-end outcome of the as-written decoder cannot arise.
   */
  function DecodeInto(data: seq<Byte>, into: Packet): (r: Decoded)
    ensures r.status != ReadPastEnd
  {
    DecodeWith(data, into, true)
  }

  /** The total size the header of `data` declares: fixed part, flagged sections and payload. */
  function DeclaredSize(data: seq<Byte>): nat
    requires |data| >= WireHeaderSize
  {
    WireHeaderSize + SenderIdSize
      + (if HasFlag(data[11], FlagHasRecipient) then RecipientIdSize else 0)
      + DecodeU16Be(data[12..])
      + (if HasFlag(data[11], FlagHasSignature) then SignatureSize else 0)
  }

  /** bitchat_packet_decode, step by step over the cursor `offset`, with the sender-id bound added. */
  method PacketDecode(data: seq<Byte>, into: Packet) returns (ok: bool, out: Packet)
    ensures ok == DecodeInto(data, into).status.Success?
    ensures out == DecodeInto(data, into).out
  {
    out := into;
    if |data| < HeaderSize + SenderIdSize {
      return false, out;
    }
    var offset := 0;
    out := out.(version := data[offset]);
    offset := offset + 1;
    if out.version != Version {
      return false, out;
    }
    out := out.(ptype := data[offset]);
    offset := offset + 1;
    out := out.(ttl := data[offset]);
    offset := offset + 1;

    var timestamp := DecodeU64Be(data, offset);
    out := out.(timestamp := timestamp);
    offset := offset + 8;

    var flags := data[offset];
    offset := offset + 1;
    out := out.(hasRecipient := HasFlag(flags, FlagHasRecipient),
                hasSignature := HasFlag(flags, FlagHasSignature),
                isCompressed := HasFlag(flags, FlagIsCompressed),
                flags := flags);

    out := out.(payloadLength := DecodeU16Be(data[offset..]));
    offset := offset + 2;
    assert out == ParseHeader(data, into);

    if offset + SenderIdSize > |data| {
      return false, out;
    }
    out := out.(senderId := data[offset..offset + SenderIdSize]);
    offset := offset + SenderIdSize;
    assert DecodeInto(data, into) == DecodeSections(data, out);
    ok, out := DecodeSectionsInto(data, out);
  }

  /** The rest of bitchat_packet_decode, from the cursor after the sender id. */
  method DecodeSectionsInto(data: seq<Byte>, h: Packet) returns (ok: bool, out: Packet)
    requires |data| >= WireHeaderSize + SenderIdSize
    ensures ok == DecodeSections(data, h).status.Success?
    ensures out == DecodeSections(data, h).out
  {
    out := h;
    var offset := WireHeaderSize + SenderIdSize;
    if out.hasRecipient {
      if offset + RecipientIdSize > |data| {
        return false, out;
      }
      out := out.(recipientId := data[offset..offset + RecipientIdSize]);
      offset := offset + RecipientIdSize;
    }

    if offset + out.payloadLength > |data| {
      return false, out;
    }
    if out.payloadLength > 0 {
      out := out.(payload := Some(data[offset..offset + out.payloadLength]));
      offset := offset + out.payloadLength;
    } else {
      out := out.(payload := None);
    }

    if out.hasSignature {
      if offset + SignatureSize > |data| {
        return false, out;
      }
      out := out.(signature := data[offset..offset + SignatureSize]);
      offset := offset + SignatureSize;
    }
    return true, out;
  }

  // ---------------------------------------------------------------------------
  // Properties of the codec
  // ---------------------------------------------------------------------------

  /** What decode accepts: exactly the inputs that hold version 1 and every byte their header declares. */
  lemma DecodeAcceptance(data: seq<Byte>, into: Packet)
    ensures DecodeInto(data, into).status.Success?
            <==> |data| >= WireHeaderSize + SenderIdSize && data[0] == Version && |data| >= DeclaredSize(data)
    ensures DecodeInto(data, into).status == Failure(TooShort) <==> |data| < MinPacketSize
    ensures DecodeInto(data, into).status == Failure(UnsupportedVersion)
            <==> |data| >= MinPacketSize && data[0] != Version
  {
  }

  /** The struct is written before the version is checked: a rejected version is left in `version`. */
  lemma VersionWrittenBeforeRejection(data: seq<Byte>, into: Packet)
    requires |data| >= MinPacketSize && data[0] != Version
    ensures DecodeInto(data, into).out == into.(version := data[0])
    ensures DecodeInto(data, into).out.version != Version
  {
  }

  /** Bytes after the declared end of a packet are never looked at. */
  lemma TrailingBytesIgnored(data: seq<Byte>, extra: seq<Byte>, into: Packet)
    requires DecodeInto(data, into).status.Success?
    ensures DecodeInto(data + extra, into) == DecodeInto(data, into)
  {
    DecodeAcceptance(data, into);
    var d := data + extra;
    assert d[..|data|] == data;
    assert d[3..11] == data[3..11];
    assert d[12..] [..2] == data[12..][..2];
    assert d[14..22] == data[14..22];
    var h := ParseHeader(data, into).(senderId := data[14..22]);
    assert ParseHeader(d, into) == ParseHeader(data, into);
    var start := if h.hasRecipient then 30 else 22;
    if h.hasRecipient {
      assert d[22..30] == data[22..30];
    }
    var len := h.payloadLength;
    assert d[start..start + len] == data[start..start + len];
    if h.hasSignature {
      assert d[start + len..start + len + 64] == data[start + len..start + len + 64];
    }
  }

  /** Decoding the encoded header gives back every header field; flags are the derived byte. */
  lemma HeaderRoundTrip(p: Packet, tail: seq<Byte>, into: Packet)
    ensures ParseHeader(HeaderBytes(p) + tail, into)
            == into.(version := p.version, ptype := p.ptype, ttl := p.ttl, timestamp := p.timestamp,
                     hasRecipient := p.hasRecipient, hasSignature := p.hasSignature,
                     isCompressed := p.isCompressed, flags := FlagsOf(p), payloadLength := p.payloadLength)
  {
    var d := HeaderBytes(p) + tail;
    assert d[3..11] == BeBytes(p.timestamp, 8);
    U64RoundTrip(p.timestamp);
    assert d[11] == FlagsOf(p);
    assert d[12..] == EncodeU16Be(p.payloadLength) + tail;
    U16RoundTrip(p.payloadLength, tail);
  }

  /**
   * Round trip: a well-formed version-1 packet whose payload pointer is set (or
   * whose payload is empty) decodes back from its encoding, whatever follows it.
   * The flags byte comes back as the one derived from the three booleans, an
   * empty payload comes back as NULL, and unflagged recipient and signature keep
   * whatever the destination struct held.
   */
  lemma {:induction false} PacketRoundTrip(p: Packet, rest: seq<Byte>, into: Packet)
    requires WellFormed(p) && p.version == Version
    requires p.payload.Some? || p.payloadLength == 0
    ensures DecodeInto(PacketBytes(p) + rest, into)
            == Decoded(Success, p.(
                 flags := FlagsOf(p),
                 recipientId := if p.hasRecipient then p.recipientId else into.recipientId,
                 payload := if p.payloadLength > 0 then Some(p.payload.value[..p.payloadLength]) else None,
                 signature := if p.hasSignature then p.signature else into.signature))
  {
    var pre := HeaderBytes(p) + p.senderId;
    var d := PacketBytes(p) + rest;
    PacketLayout(p, rest);
    HeaderRoundTrip(p, d[WireHeaderSize..], into);
    var h := ParseHeader(d, into).(senderId := p.senderId);
    assert DecodeWith(d, into, true) == DecodeSections(d, h);
    SectionsRoundTrip(p, h, pre, rest);
  }

  /** Where the parts of an encoded packet lie in the encoding followed by `rest`. */
  lemma PacketLayout(p: Packet, rest: seq<Byte>)
    requires WellFormed(p)
    ensures var d := PacketBytes(p) + rest;
            && |d| >= WireHeaderSize + SenderIdSize
            && d == HeaderBytes(p) + d[WireHeaderSize..]
            && d[WireHeaderSize..WireHeaderSize + SenderIdSize] == p.senderId
            && d == (HeaderBytes(p) + p.senderId) + (if p.hasRecipient then p.recipientId else []) + PayloadBytes(p)
                    + (if p.hasSignature then p.signature else []) + rest
  {
    var rec := if p.hasRecipient then p.recipientId else [];
    var sig := if p.hasSignature then p.signature else [];
    var d := PacketBytes(p) + rest;
    var tail := p.senderId + rec + PayloadBytes(p) + sig + rest;
    assert d == HeaderBytes(p) + tail;
    assert d[WireHeaderSize..] == tail;
    assert tail[..SenderIdSize] == p.senderId;
  }

  lemma SectionsRoundTrip(p: Packet, h: Packet, pre: seq<Byte>, rest: seq<Byte>)
    requires WellFormed(p)
    requires p.payload.Some? || p.payloadLength == 0
    requires |pre| == WireHeaderSize + SenderIdSize
    requires h.hasRecipient == p.hasRecipient && h.hasSignature == p.hasSignature
    requires h.payloadLength == p.payloadLength
    ensures DecodeSections(pre + (if p.hasRecipient then p.recipientId else []) + PayloadBytes(p)
                             + (if p.hasSignature then p.signature else []) + rest, h)
            == Decoded(Success, h.(
                 recipientId := if p.hasRecipient then p.recipientId else h.recipientId,
                 payload := if p.payloadLength > 0 then Some(p.payload.value[..p.payloadLength]) else None,
                 signature := if p.hasSignature then p.signature else h.signature))
  {
    var rec := if p.hasRecipient then p.recipientId else [];
    var sig := if p.hasSignature then p.signature else [];
    var body := PayloadBytes(p);
    SectionSlices(pre, rec, body, sig, rest);
  }

  /** Where each part of a concatenation of five lies. */
  lemma SectionSlices(a: seq<Byte>, b: seq<Byte>, c: seq<Byte>, e: seq<Byte>, f: seq<Byte>)
    ensures var d := a + b + c + e + f;
            && d[|a|..|a| + |b|] == b
            && d[|a| + |b|..|a| + |b| + |c|] == c
            && d[|a| + |b| + |c|..|a| + |b| + |c| + |e|] == e
            && d[|a| + |b| + |c| + |e|..] == f
  {
  }

  /**
   * With a NULL payload and a nonzero payload_length the encoder reports fewer
   * bytes than the header declares, so its own decoder refuses the result.
   */
  lemma NullPayloadNotDecodable(p: Packet, into: Packet)
    requires WellFormed(p) && p.version == Version
    requires p.payload.None? && p.payloadLength > 0
    ensures |PacketBytes(p)| == RequiredSize(p) - p.payloadLength
    ensures DecodeInto(PacketBytes(p), into).status == Failure(Truncated)
  {
    var d := PacketBytes(p);
    HeaderRoundTrip(p, d[WireHeaderSize..], into);
    assert d == HeaderBytes(p) + d[WireHeaderSize..];
    DecodeAcceptance(d, into);
  }

  /**
   * The source's size check is one byte short: for every packet with a payload
   * the encoder writes RequiredSizeAsWritten(p) + 1 bytes, so a buffer of exactly
   * the size it asks for is overrun by one byte. The largest packet is likewise
   * one byte longer than BITCHAT_MAX_PACKET_SIZE.
   */
  lemma EncodeOverrunsCheckedSize(p: Packet)
    requires WellFormed(p) && (p.payload.Some? || p.payloadLength == 0)
    ensures |PacketBytes(p)| == RequiredSizeAsWritten(p) + 1
    ensures p.hasRecipient && p.hasSignature && p.payloadLength == MaxPayloadSize
            ==> |PacketBytes(p)| == MaxPacketSize + 1
  {
  }

  /** The source's decoder reads one byte past a 21-byte version-1 input (the last sender-id byte). */
  lemma DecodeOverreadsAsWritten(data: seq<Byte>, into: Packet)
    ensures DecodeWith(data, into, false).status == ReadPastEnd
            <==> |data| == MinPacketSize && data[0] == Version
    ensures DecodeWith(data, into, false).status != ReadPastEnd
            ==> DecodeWith(data, into, false) == DecodeInto(data, into)
  {
  }
}
