/**
 * The chat message carried in a packet payload (protocol/bitchat_protocol.h,
 * BitchatMessage) and its codec (protocol/bitchat_protocol.c,
 * bitchat_message_encode and bitchat_message_decode).
 *
 * Wire layout, in order: flags (one byte), timestamp (u64, big-endian), id
 * length (one byte) and id, sender length (one byte) and sender, content
 * length (u16, big-endian) and content, then original sender, recipient
 * nickname and sender peer id, each as a one-byte length and its bytes and
 * each present only when its flag bit is set.
 */
module Message {
  import opened Bytes
  import opened Wrappers
  import opened CString

  // Array sizes of the C struct, terminator included.
  const IdCapacity: nat := 37
  const SenderCapacity: nat := 32
  const ContentCapacity: nat := 256
  const OriginalSenderCapacity: nat := 32
  const RecipientNicknameCapacity: nat := 32
  const SenderPeerIdCapacity: nat := 17

  /** The shortest input decode looks at: flags, timestamp, id length and three more bytes. */
  const MinMessageSize: nat := 13

  /** The longest encoding of a message whose strings fit their arrays. */
  const MaxMessageSize: nat := 1 + 8 + IdCapacity + SenderCapacity + 1 + ContentCapacity
                               + OriginalSenderCapacity + RecipientNicknameCapacity + SenderPeerIdCapacity

  const FlagIsRelay: bv8 := 0x01
  const FlagIsPrivate: bv8 := 0x02
  const FlagHasOriginalSender: bv8 := 0x04
  const FlagHasRecipientNickname: bv8 := 0x08
  const FlagHasSenderPeerId: bv8 := 0x10

  predicate HasBit(flags: Byte, bit: bv8)
  {
    (flags as bv8) & bit != 0
  }

  /** The C struct; each char array is the C string it holds. */
  datatype Message = Message(
    id: seq<Byte>,
    sender: seq<Byte>,
    content: seq<Byte>,
    timestamp: U64,
    isRelay: bool,
    isPrivate: bool,
    originalSender: seq<Byte>,
    recipientNickname: seq<Byte>,
    senderPeerId: seq<Byte>)

  /** A C string that, with its terminator, fits an array of `capacity` bytes. */
  predicate Fits(s: seq<Byte>, capacity: nat)
  {
    |s| < capacity && NulFree(s)
  }

  /** Every string is terminated inside its array. */
  predicate Valid(m: Message)
  {
    && Fits(m.id, IdCapacity)
    && Fits(m.sender, SenderCapacity)
    && Fits(m.content, ContentCapacity)
    && Fits(m.originalSender, OriginalSenderCapacity)
    && Fits(m.recipientNickname, RecipientNicknameCapacity)
    && Fits(m.senderPeerId, SenderPeerIdCapacity)
  }

  /**
   * What the wire form can carry: NUL-free strings whose lengths fit their
   * length prefixes (one byte, two for the content). Looser than Valid.
   */
  predicate Encodable(m: Message)
  {
    && Fits(m.id, 0x100)
    && Fits(m.sender, 0x100)
    && Fits(m.content, 0x1_0000)
    && Fits(m.originalSender, 0x100)
    && Fits(m.recipientNickname, 0x100)
    && Fits(m.senderPeerId, 0x100)
  }

  /** The all-zero struct decode starts from. */
  const Empty: Message := Message([], [], [], 0, false, false, [], [], [])

  /** The flags byte encode writes: an optional field is flagged exactly when its string is non-empty. */
  function MessageFlags(m: Message): (f: Byte)
    ensures f < 0x20
    ensures HasBit(f, FlagIsRelay) == m.isRelay
    ensures HasBit(f, FlagIsPrivate) == m.isPrivate
    ensures HasBit(f, FlagHasOriginalSender) == (m.originalSender != [])
    ensures HasBit(f, FlagHasRecipientNickname) == (m.recipientNickname != [])
    ensures HasBit(f, FlagHasSenderPeerId) == (m.senderPeerId != [])
  {
    var f0: bv8 := 0;
    var f1 := if m.isRelay then f0 | FlagIsRelay else f0;
    var f2 := if m.isPrivate then f1 | FlagIsPrivate else f1;
    var f3 := if m.originalSender != [] then f2 | FlagHasOriginalSender else f2;
    var f4 := if m.recipientNickname != [] then f3 | FlagHasRecipientNickname else f3;
    var f5 := if m.senderPeerId != [] then f4 | FlagHasSenderPeerId else f4;
    f5 as int
  }

  /** A one-byte length followed by the string. */
  function Field(s: seq<Byte>): (r: seq<Byte>)
    requires |s| < 0x100
    ensures |r| == 1 + |s| && r[0] == |s| && r[1..] == s
  {
    [|s|] + s
  }

  /** An optional field: nothing when the string is empty. */
  function OptionalField(s: seq<Byte>): (r: seq<Byte>)
    requires |s| < 0x100
    ensures |r| == if s == [] then 0 else 1 + |s|
  {
    if s == [] then [] else Field(s)
  }

  /** The bytes bitchat_message_encode writes for m. */
  function MessageBytes(m: Message): (r: seq<Byte>)
    requires Encodable(m)
    ensures |r| == MinMessageSize + |m.id| + |m.sender| + |m.content|
                   + |OptionalField(m.originalSender)| + |OptionalField(m.recipientNickname)|
                   + |OptionalField(m.senderPeerId)|
  {
    [MessageFlags(m)] + BeBytes(m.timestamp, 8) + Field(m.id) + Field(m.sender)
      + EncodeU16Be(|m.content|) + m.content
      + OptionalField(m.originalSender) + OptionalField(m.recipientNickname) + OptionalField(m.senderPeerId)
  }

  /** Every struct the C types allow is encodable, and its encoding is at most MaxMessageSize bytes. */
  lemma MessageSizeBound(m: Message)
    requires Valid(m)
    ensures Encodable(m)
    ensures |MessageBytes(m)| <= MaxMessageSize
  {
    assert |OptionalField(m.originalSender)| <= OriginalSenderCapacity;
    assert |OptionalField(m.recipientNickname)| <= RecipientNicknameCapacity;
    assert |OptionalField(m.senderPeerId)| <= SenderPeerIdCapacity;
  }

  /**
   * bitchat_message_encode. The source ignores buffer_size, so the caller must
   * supply room for the whole encoding (MaxMessageSize always suffices, see
   * MessageSizeBound). Writes MessageBytes(m) at the start of the buffer and
   * returns its length.
   */
  method MessageEncode(m: Message, buffer: array<Byte>, bufferSize: nat) returns (n: nat)
    requires Valid(m)
    requires |MessageBytes(m)| <= buffer.Length
    modifies buffer
    ensures n == |MessageBytes(m)|
    ensures buffer[..] == MessageBytes(m) + old(buffer[..])[n..]
  {
    ghost var orig := buffer[..];
    WriteFixed(m, buffer);
    var offset := 9;
    ghost var written := [MessageFlags(m)] + BeBytes(m.timestamp, 8);

    offset, written := PutField(buffer, offset, m.id, written, orig);
    offset, written := PutField(buffer, offset, m.sender, written, orig);

    offset, written := PutContent(buffer, offset, m.content, written, orig);

    offset, written := PutOptional(buffer, offset, m.originalSender, written, orig);
    offset, written := PutOptional(buffer, offset, m.recipientNickname, written, orig);
    offset, written := PutOptional(buffer, offset, m.senderPeerId, written, orig);
    n := offset;
  }

  /** The flags byte and the timestamp: the first 9 bytes. */
  method WriteFixed(m: Message, buffer: array<Byte>)
    requires 9 <= buffer.Length
    modifies buffer
    ensures buffer[..] == ([MessageFlags(m)] + BeBytes(m.timestamp, 8)) + old(buffer[..])[9..]
  {
    ghost var orig := buffer[..];
    assert buffer[..] == [] + orig[0..];
    var flags := MessageFlags(m);
    Put(buffer, 0, [flags], [], orig);
    PutU64(buffer, 1, m.timestamp, [flags], orig);
  }

  /** Writes an optional field (length and string) only when the string is non-empty. */
  method PutOptional(buffer: array<Byte>, offset: nat, s: seq<Byte>, ghost written: seq<Byte>, ghost orig: seq<Byte>)
    returns (offset': nat, ghost written': seq<Byte>)
    requires |s| < 0x100
    requires offset == |written| && offset + |OptionalField(s)| <= buffer.Length == |orig|
    requires buffer[..] == written + orig[offset..]
    modifies buffer
    ensures offset' == offset + |OptionalField(s)| && written' == written + OptionalField(s)
    ensures buffer[..] == written' + orig[offset'..]
  {
    if s != [] {
      offset', written' := PutField(buffer, offset, s, written, orig);
    } else {
      offset', written' := offset, written;
    }
  }

  /** Writes one length-prefixed string after the `written` prefix. */
  method PutField(buffer: array<Byte>, offset: nat, s: seq<Byte>, ghost written: seq<Byte>, ghost orig: seq<Byte>)
    returns (offset': nat, ghost written': seq<Byte>)
    requires |s| < 0x100
    requires offset == |written| && offset + 1 + |s| <= buffer.Length == |orig|
    requires buffer[..] == written + orig[offset..]
    modifies buffer
    ensures offset' == offset + 1 + |s| && written' == written + Field(s)
    ensures buffer[..] == written' + orig[offset'..]
  {
    Put(buffer, offset, [|s|], written, orig);
    Put(buffer, offset + 1, s, written + [|s|], orig);
    offset', written' := offset + 1 + |s|, written + [|s|] + s;
  }

  /** The content: its length as two big-endian bytes, then the content itself. */
  method PutContent(buffer: array<Byte>, offset: nat, c: seq<Byte>, ghost written: seq<Byte>, ghost orig: seq<Byte>)
    returns (offset': nat, ghost written': seq<Byte>)
    requires |c| < 0x1_0000
    requires offset == |written| && offset + 2 + |c| <= buffer.Length == |orig|
    requires buffer[..] == written + orig[offset..]
    modifies buffer
    ensures offset' == offset + 2 + |c| && written' == written + EncodeU16Be(|c|) + c
    ensures buffer[..] == written' + orig[offset'..]
  {
    Put(buffer, offset, EncodeU16Be(|c|), written, orig);
    Put(buffer, offset + 2, c, written + EncodeU16Be(|c|), orig);
    offset', written' := offset + 2 + |c|, written + EncodeU16Be(|c|) + c;
  }

  // ---------------------------------------------------------------------------
  // Decoding
  // ---------------------------------------------------------------------------
  //
  // decode walks a cursor through the input; the functions below take the
  // bytes from the cursor on (the input not yet read), so a field is always at
  // the head of what they are given.

  datatype MessageError = TooShort | Truncated

  /**
   * What decode makes of an input. `Undefined`: the source would read past the
   * input or write past one of the struct's arrays (undefined behaviour in C).
   */
  datatype Outcome = Decoded(msg: Message) | Rejected(error: MessageError) | Undefined

  /**
   * The string a length-checked `memcpy` of `raw` into an array of `capacity`
   * bytes leaves there, with the terminator written after it. The source copies
   * all of `raw` even when it does not fit (None, with `guarded` false); the
   * corrected decoder copies at most capacity - 1 bytes, as the source already
   * does for the content.
   */
  function Copy(raw: seq<Byte>, capacity: nat, guarded: bool): (r: Option<seq<Byte>>)
    requires capacity > 0
    ensures r.Some? ==> Fits(r.value, capacity)
    ensures r.Some? <==> guarded || |raw| < capacity
    ensures |raw| < capacity ==> r == Some(CStr(raw))
    ensures NulFree(raw) && r.Some? ==> r.value == raw[..|r.value|]
  {
    if |raw| < capacity then Some(CStr(raw))
    else if guarded then Some(CStr(raw[..capacity - 1]))
    else None
  }

  /** Which optional fields the flags byte announces. */
  datatype Presence = Presence(originalSender: bool, recipientNickname: bool, senderPeerId: bool)

  function PresenceOf(flags: Byte): Presence
  {
    Presence(HasBit(flags, FlagHasOriginalSender), HasBit(flags, FlagHasRecipientNickname), HasBit(flags, FlagHasSenderPeerId))
  }

  /** The result of reading one optional field, and the input left after it. */
  datatype Step = Step(value: Option<seq<Byte>>, rest: seq<Byte>)

  /**
   * An optional field at the head of `input`: read only when flagged and a
   * byte remains. A length that runs past the input leaves the field empty,
   * with only the length byte consumed, and is not an error.
   */
  function ReadOptional(input: seq<Byte>, present: bool, capacity: nat, guarded: bool): (r: Step)
    requires capacity > 0
    ensures r.value.Some? ==> Fits(r.value.value, capacity)
    ensures guarded ==> r.value.Some?
  {
    if present && input != [] then
      var len := input[0] as nat;
      if 1 + len <= |input| then Step(Copy(input[1..1 + len], capacity, guarded), input[1 + len..])
      else Step(Some([]), input[1..])
    else Step(Some([]), input)
  }

  /** A flagged optional field whose length overruns the input is read as empty, and decoding goes on. */
  lemma OptionalOverrun(input: seq<Byte>, capacity: nat, guarded: bool)
    requires capacity > 0 && input != [] && 1 + input[0] as nat > |input|
    ensures ReadOptional(input, true, capacity, guarded) == Step(Some([]), input[1..])
  {
  }

  /**
   * bitchat_message_decode. With `guarded` false this is the source as written;
   * with `guarded` true a length byte or content length that lies past the end
   * is reported as Truncated, and every string is clamped to its array.
   */
  function ParseWith(data: seq<Byte>, guarded: bool): (r: Outcome)
    ensures guarded ==> r != Undefined
    ensures r == Rejected(TooShort) <==> |data| < MinMessageSize
  {
    if |data| < MinMessageSize then Rejected(TooShort)
    else
      var flags := data[0];
      var m := Empty.(isRelay := HasBit(flags, FlagIsRelay),
                      isPrivate := HasBit(flags, FlagIsPrivate),
                      timestamp := BeU64(data[1..9]));
      ParseId(data[9..], PresenceOf(flags), m, guarded)
  }

  /** The id: its length byte is always within the 13 bytes already checked for. */
  function ParseId(input: seq<Byte>, present: Presence, m: Message, guarded: bool): (r: Outcome)
    requires input != []
    ensures guarded ==> r != Undefined
    ensures r != Rejected(TooShort)
  {
    var len := input[0] as nat;
    if 1 + len > |input| then Rejected(Truncated)
    else
      var id := Copy(input[1..1 + len], IdCapacity, guarded);
      if id.None? then Undefined
      else ParseSender(input[1 + len..], present, m.(id := id.value), guarded)
  }

  /** The sender: the source reads its length byte without checking that one remains. */
  function ParseSender(input: seq<Byte>, present: Presence, m: Message, guarded: bool): (r: Outcome)
    ensures guarded ==> r != Undefined
    ensures r != Rejected(TooShort)
  {
    if input == [] then (if guarded then Rejected(Truncated) else Undefined)
    else
      var len := input[0] as nat;
      if 1 + len > |input| then Rejected(Truncated)
      else
        var sender := Copy(input[1..1 + len], SenderCapacity, guarded);
        if sender.None? then Undefined
        else ParseContent(input[1 + len..], present, m.(sender := sender.value), guarded)
  }

  /** The content: nor does it check that its two length bytes remain. */
  function ParseContent(input: seq<Byte>, present: Presence, m: Message, guarded: bool): (r: Outcome)
    ensures guarded ==> r != Undefined
    ensures r != Rejected(TooShort)
  {
    if |input| < 2 then (if guarded then Rejected(Truncated) else Undefined)
    else
      var len := DecodeU16Be(input);
      if 2 + len > |input| then Rejected(Truncated)
      else
        // The source clamps the content to its array in both readings.
        var content := Copy(input[2..2 + len], ContentCapacity, true);
        ParseOptionals(input[2 + len..], present, m.(content := content.value), guarded)
  }

  /** The three optional fields, each read where the one before it ended. */
  function ParseOptionals(input: seq<Byte>, present: Presence, m: Message, guarded: bool): (r: Outcome)
    ensures guarded ==> r != Undefined
    ensures r != Rejected(TooShort)
  {
    var a := ReadOptional(input, present.originalSender, OriginalSenderCapacity, guarded);
    var b := ReadOptional(a.rest, present.recipientNickname, RecipientNicknameCapacity, guarded);
    var c := ReadOptional(b.rest, present.senderPeerId, SenderPeerIdCapacity, guarded);
    if a.value.None? || b.value.None? || c.value.None? then Undefined
    else Decoded(m.(originalSender := a.value.value, recipientNickname := b.value.value, senderPeerId := c.value.value))
  }

  /** The decoder the rest of the model uses: the source with its missing bounds checks added. */
  function ParseMessage(data: seq<Byte>): (r: Outcome)
    ensures r != Undefined
    ensures r.Decoded? ==> Valid(r.msg)
    ensures r == Rejected(TooShort) <==> |data| < MinMessageSize
  {
    DecodedFits(data, true);
    ParseWith(data, true)
  }

  /** Whatever decode stores, every string ends inside its array. */
  lemma DecodedFits(data: seq<Byte>, guarded: bool)
    ensures ParseWith(data, guarded).Decoded? ==> Valid(ParseWith(data, guarded).msg)
  {
    if |data| >= MinMessageSize {
      var m := Empty.(isRelay := HasBit(data[0], FlagIsRelay),
                      isPrivate := HasBit(data[0], FlagIsPrivate),
                      timestamp := BeU64(data[1..9]));
      IdFits(data[9..], PresenceOf(data[0]), m, guarded);
    }
  }

  lemma IdFits(input: seq<Byte>, present: Presence, m: Message, guarded: bool)
    requires input != [] && Valid(m)
    ensures ParseId(input, present, m, guarded).Decoded? ==> Valid(ParseId(input, present, m, guarded).msg)
  {
    var len := input[0] as nat;
    if 1 + len <= |input| {
      var id := Copy(input[1..1 + len], IdCapacity, guarded);
      if id.Some? {
        var m' := m.(id := id.value);
        assert Valid(m');
        assert ParseId(input, present, m, guarded) == ParseSender(input[1 + len..], present, m', guarded);
        SenderFits(input[1 + len..], present, m', guarded);
      }
    }
  }

  lemma SenderFits(input: seq<Byte>, present: Presence, m: Message, guarded: bool)
    requires Valid(m)
    ensures ParseSender(input, present, m, guarded).Decoded? ==> Valid(ParseSender(input, present, m, guarded).msg)
  {
    if input != [] {
      var len := input[0] as nat;
      if 1 + len <= |input| {
        var sender := Copy(input[1..1 + len], SenderCapacity, guarded);
        if sender.Some? {
          var m' := m.(sender := sender.value);
          assert Valid(m');
          assert ParseSender(input, present, m, guarded) == ParseContent(input[1 + len..], present, m', guarded);
          ContentFits(input[1 + len..], present, m', guarded);
        }
      }
    }
  }

  lemma ContentFits(input: seq<Byte>, present: Presence, m: Message, guarded: bool)
    requires Valid(m)
    ensures ParseContent(input, present, m, guarded).Decoded? ==> Valid(ParseContent(input, present, m, guarded).msg)
  {
  }

  /** The string a length-clamped copy into an array of `capacity` bytes keeps of a NUL-free string. */
  function Clamp(s: seq<Byte>, capacity: nat): (r: seq<Byte>)
    requires capacity > 0
    ensures |r| < capacity && |r| <= |s| && r == s[..|r|]
    ensures |s| < capacity ==> r == s
  {
    if |s| < capacity then s else s[..capacity - 1]
  }

  /** m with every string clamped to its array, as decode stores it. */
  function Clamped(m: Message): (r: Message)
    ensures Valid(m) ==> r == m
  {
    m.(id := Clamp(m.id, IdCapacity),
       sender := Clamp(m.sender, SenderCapacity),
       content := Clamp(m.content, ContentCapacity),
       originalSender := Clamp(m.originalSender, OriginalSenderCapacity),
       recipientNickname := Clamp(m.recipientNickname, RecipientNicknameCapacity),
       senderPeerId := Clamp(m.senderPeerId, SenderPeerIdCapacity))
  }

  // ---------------------------------------------------------------------------
  // The decoder, step by step
  // ---------------------------------------------------------------------------

  /** bitchat_message_decode over the cursor `offset`, with the bounds checks added. */
  method MessageDecode(data: seq<Byte>) returns (ok: bool, m: Message)
    ensures ok <==> ParseMessage(data).Decoded?
    ensures ok ==> m == ParseMessage(data).msg
  {
    m := Empty;
    if |data| < MinMessageSize {
      return false, m;
    }
    var offset := 0;
    var flags := data[offset];
    offset := offset + 1;
    m := m.(isRelay := HasBit(flags, FlagIsRelay), isPrivate := HasBit(flags, FlagIsPrivate));
    var timestamp := DecodeU64Be(data, offset);
    m := m.(timestamp := timestamp);
    offset := offset + 8;
    var present := PresenceOf(flags);
    assert m == Empty.(isRelay := HasBit(data[0], FlagIsRelay),
                       isPrivate := HasBit(data[0], FlagIsPrivate),
                       timestamp := BeU64(data[1..9]));
    assert ParseMessage(data) == ParseWith(data, true);
    ok, m := DecodeFields(data, offset, present, m);
  }

  /** The id and the sender, from the cursor after the timestamp. */
  method DecodeFields(data: seq<Byte>, offset: nat, present: Presence, m: Message) returns (ok: bool, m': Message)
    requires offset < |data| && Valid(m)
    ensures ok <==> ParseId(data[offset..], present, m, true).Decoded?
    ensures ok ==> m' == ParseId(data[offset..], present, m, true).msg
  {
    var idOk, next, id := ReadField(data, offset, IdCapacity);
    if !idOk {
      return false, m;
    }
    Slices(data, offset, next);
    var m1 := m.(id := id);
    assert ParseId(data[offset..], present, m, true) == ParseSender(data[next..], present, m1, true);
    if next >= |data| {
      return false, m1;
    }
    var senderOk, next', sender := ReadField(data, next, SenderCapacity);
    if !senderOk {
      return false, m1;
    }
    Slices(data, next, next');
    var m2 := m1.(sender := sender);
    assert ParseSender(data[next..], present, m1, true) == ParseContent(data[next'..], present, m2, true);
    ok, m' := DecodeTail(data, next', present, m2);
  }

  /** The content and the optional fields, from the cursor after the sender. */
  method DecodeTail(data: seq<Byte>, offset: nat, present: Presence, m: Message) returns (ok: bool, m': Message)
    requires offset <= |data| && Valid(m)
    ensures ok <==> ParseContent(data[offset..], present, m, true).Decoded?
    ensures ok ==> m' == ParseContent(data[offset..], present, m, true).msg
  {
    if offset + 2 > |data| {
      return false, m;
    }
    ghost var input := data[offset..];
    var contentLen := DecodeU16Be(data[offset..]);
    assert contentLen == DecodeU16Be(input);
    var start := offset + 2;
    if start + contentLen > |data| {
      return false, m;
    }
    var content := CopyString(data[start..start + contentLen], ContentCapacity);
    var next := start + contentLen;
    assert data[offset..][2..2 + contentLen] == data[start..next];
    assert data[offset..][2 + contentLen..] == data[next..];
    assert Copy(input[2..2 + contentLen], ContentCapacity, true) == Some(content);
    m' := DecodeOptionals(data, next, present, m.(content := content));
    return true, m';
  }

  /** The three optional fields, each present only when its flag is set, read in order from the cursor. */
  method DecodeOptionals(data: seq<Byte>, offset: nat, present: Presence, m: Message) returns (m': Message)
    requires offset <= |data|
    ensures ParseOptionals(data[offset..], present, m, true) == Decoded(m')
  {
    var s, next;
    m' := m;
    s, next := ReadOptionalField(data, offset, present.originalSender, OriginalSenderCapacity);
    m' := m'.(originalSender := s);
    s, next := ReadOptionalField(data, next, present.recipientNickname, RecipientNicknameCapacity);
    m' := m'.(recipientNickname := s);
    s, next := ReadOptionalField(data, next, present.senderPeerId, SenderPeerIdCapacity);
    m' := m'.(senderPeerId := s);
  }

  /** A one-byte length at the cursor and the string after it, if the string lies within the input. */
  method ReadField(data: seq<Byte>, offset: nat, capacity: nat) returns (ok: bool, next: nat, s: seq<Byte>)
    requires offset < |data| && capacity > 0
    ensures ok <==> offset + 1 + data[offset] <= |data|
    ensures ok ==> next == offset + 1 + data[offset] && Copy(data[offset + 1..next], capacity, true) == Some(s)
  {
    var len := data[offset] as nat;
    next := offset + 1 + len;
    if next > |data| {
      return false, next, [];
    }
    s := CopyString(data[offset + 1..next], capacity);
    ok := true;
  }

  /** The parts of the input after a field that runs from `offset` to `next`. */
  lemma Slices(data: seq<Byte>, offset: nat, next: nat)
    requires offset < next <= |data|
    ensures data[offset..][1..next - offset] == data[offset + 1..next]
    ensures data[offset..][next - offset..] == data[next..]
  {
  }

  /** `memcpy` of at most capacity - 1 bytes and a terminator after them: the string the array then holds. */
  method CopyString(raw: seq<Byte>, capacity: nat) returns (s: seq<Byte>)
    requires capacity > 0
    ensures Copy(raw, capacity, true) == Some(s)
  {
    var copyLen := if |raw| < capacity - 1 then |raw| else capacity - 1;
    assert |raw| < capacity ==> raw[..copyLen] == raw;
    s := CStr(raw[..copyLen]);
  }

  /** One optional field: its string and the cursor after it. */
  method ReadOptionalField(data: seq<Byte>, offset: nat, present: bool, capacity: nat) returns (s: seq<Byte>, next: nat)
    requires offset <= |data| && capacity > 0
    ensures offset <= next <= |data|
    ensures ReadOptional(data[offset..], present, capacity, true) == Step(Some(s), data[next..])
  {
    s, next := [], offset;
    if present && offset < |data| {
      var len := data[offset] as nat;
      next := offset + 1;
      if next + len <= |data| {
        s := CopyString(data[next..next + len], capacity);
        next := next + len;
        Slices(data, offset, next);
      } else {
        assert data[offset..][1..] == data[next..];
      }
    }
  }

  // ---------------------------------------------------------------------------
  // Properties of the codec
  // ---------------------------------------------------------------------------

  lemma CopyClamps(raw: seq<Byte>, capacity: nat)
    requires capacity > 0 && NulFree(raw)
    ensures Copy(raw, capacity, true) == Some(Clamp(raw, capacity))
  {
    if |raw| >= capacity {
      assert NulFree(raw[..capacity - 1]);
    }
  }

  /** A length-prefixed string at the head of the input: its length byte, the string, then the rest. */
  lemma FieldSplit(s: seq<Byte>, post: seq<Byte>)
    requires |s| < 0x100
    ensures |Field(s) + post| == 1 + |s| + |post| && (Field(s) + post)[0] == |s|
    ensures (Field(s) + post)[1..1 + |s|] == s && (Field(s) + post)[1 + |s|..] == post
  {
    assert Field(s) + post == [|s|] + (s + post);
  }

  lemma IdStep(s: seq<Byte>, post: seq<Byte>, present: Presence, h: Message)
    requires Fits(s, 0x100)
    ensures ParseId(Field(s) + post, present, h, true) == ParseSender(post, present, h.(id := Clamp(s, IdCapacity)), true)
  {
    FieldSplit(s, post);
    CopyClamps(s, IdCapacity);
  }

  lemma SenderStep(s: seq<Byte>, post: seq<Byte>, present: Presence, h: Message)
    requires Fits(s, 0x100)
    ensures ParseSender(Field(s) + post, present, h, true) == ParseContent(post, present, h.(sender := Clamp(s, SenderCapacity)), true)
  {
    FieldSplit(s, post);
    CopyClamps(s, SenderCapacity);
  }

  /** The content length, the content, then the rest. */
  lemma ContentSplit(t: seq<Byte>, post: seq<Byte>)
    requires |t| < 0x1_0000
    ensures |EncodeU16Be(|t|) + (t + post)| == 2 + |t| + |post|
    ensures DecodeU16Be(EncodeU16Be(|t|) + (t + post)) == |t|
    ensures (EncodeU16Be(|t|) + (t + post))[2..2 + |t|] == t && (EncodeU16Be(|t|) + (t + post))[2 + |t|..] == post
  {
    U16RoundTrip(|t|, t + post);
  }

  lemma ContentStep(t: seq<Byte>, post: seq<Byte>, present: Presence, h: Message)
    requires Fits(t, 0x1_0000)
    ensures ParseContent(EncodeU16Be(|t|) + (t + post), present, h, true)
            == ParseOptionals(post, present, h.(content := Clamp(t, ContentCapacity)), true)
  {
    ContentSplit(t, post);
    CopyClamps(t, ContentCapacity);
  }

  /** An optional field reads back clamped, and only its own bytes are consumed. */
  lemma OptionalStep(s: seq<Byte>, post: seq<Byte>, present: bool, capacity: nat)
    requires Fits(s, 0x100) && capacity > 0 && present == (s != [])
    ensures ReadOptional(OptionalField(s) + post, present, capacity, true) == Step(Some(Clamp(s, capacity)), post)
  {
    if s != [] {
      FieldSplit(s, post);
      CopyClamps(s, capacity);
    } else {
      assert OptionalField(s) + post == post;
    }
  }

  /** The optional fields encode announces for m: the non-empty ones. */
  function Announced(m: Message): Presence
  {
    Presence(m.originalSender != [], m.recipientNickname != [], m.senderPeerId != [])
  }

  lemma OptionalsRoundTrip(a: seq<Byte>, b: seq<Byte>, c: seq<Byte>, p: Presence, h: Message, rest: seq<Byte>)
    requires Fits(a, 0x100) && Fits(b, 0x100) && Fits(c, 0x100)
    requires p == Presence(a != [], b != [], c != [])
    ensures ParseOptionals(OptionalField(a) + (OptionalField(b) + (OptionalField(c) + rest)), p, h, true)
            == Decoded(h.(originalSender := Clamp(a, OriginalSenderCapacity),
                          recipientNickname := Clamp(b, RecipientNicknameCapacity),
                          senderPeerId := Clamp(c, SenderPeerIdCapacity)))
  {
    OptionalStep(a, OptionalField(b) + (OptionalField(c) + rest), p.originalSender, OriginalSenderCapacity);
    OptionalStep(b, OptionalField(c) + rest, p.recipientNickname, RecipientNicknameCapacity);
    OptionalStep(c, rest, p.senderPeerId, SenderPeerIdCapacity);
  }

  /** The encoding of the strings, from the id on, grouped from the right and followed by `rest`. */
  function FieldsBytes(m: Message, rest: seq<Byte>): (r: seq<Byte>)
    requires Encodable(m)
    ensures |r| == |MessageBytes(m)| - 9 + |rest|
    ensures r[..1 + |m.id|] == Field(m.id)
  {
    Field(m.id) + (Field(m.sender) + (EncodeU16Be(|m.content|) + (m.content + (OptionalField(m.originalSender)
      + (OptionalField(m.recipientNickname) + (OptionalField(m.senderPeerId) + rest))))))
  }

  /** The strings of an encoded message decode back clamped, from the id on. */
  lemma FieldsRoundTrip(m: Message, h: Message, rest: seq<Byte>)
    requires Encodable(m)
    ensures ParseId(FieldsBytes(m, rest), Announced(m), h, true)
            == Decoded(h.(id := Clamp(m.id, IdCapacity),
                          sender := Clamp(m.sender, SenderCapacity),
                          content := Clamp(m.content, ContentCapacity),
                          originalSender := Clamp(m.originalSender, OriginalSenderCapacity),
                          recipientNickname := Clamp(m.recipientNickname, RecipientNicknameCapacity),
                          senderPeerId := Clamp(m.senderPeerId, SenderPeerIdCapacity)))
  {
    var opts := OptionalField(m.originalSender) + (OptionalField(m.recipientNickname) + (OptionalField(m.senderPeerId) + rest));
    var p := Announced(m);
    var h1 := h.(id := Clamp(m.id, IdCapacity));
    var h2 := h1.(sender := Clamp(m.sender, SenderCapacity));
    var h3 := h2.(content := Clamp(m.content, ContentCapacity));
    IdStep(m.id, Field(m.sender) + (EncodeU16Be(|m.content|) + (m.content + opts)), p, h);
    SenderStep(m.sender, EncodeU16Be(|m.content|) + (m.content + opts), p, h1);
    ContentStep(m.content, opts, p, h2);
    OptionalsRoundTrip(m.originalSender, m.recipientNickname, m.senderPeerId, p, h3, rest);
  }

  /** The encoding followed by `rest`, regrouped as flags, timestamp, then the strings. */
  lemma MessageBytesThen(m: Message, rest: seq<Byte>)
    requires Encodable(m)
    ensures MessageBytes(m) + rest == [MessageFlags(m)] + (BeBytes(m.timestamp, 8) + FieldsBytes(m, rest))
  {
    var a, b := [MessageFlags(m)], BeBytes(m.timestamp, 8);
    var c, d := Field(m.id), Field(m.sender);
    var e, f := EncodeU16Be(|m.content|), m.content;
    var g, i, j := OptionalField(m.originalSender), OptionalField(m.recipientNickname), OptionalField(m.senderPeerId);
    calc {
      MessageBytes(m) + rest;
      ((((((((a + b) + c) + d) + e) + f) + g) + i) + j) + rest;
      { AppendAssoc((((((((a + b) + c) + d) + e) + f) + g) + i), j, rest); }
      (((((((a + b) + c) + d) + e) + f) + g) + i) + (j + rest);
      { AppendAssoc(((((((a + b) + c) + d) + e) + f) + g), i, j + rest); }
      ((((((a + b) + c) + d) + e) + f) + g) + (i + (j + rest));
      { AppendAssoc((((((a + b) + c) + d) + e) + f), g, i + (j + rest)); }
      (((((a + b) + c) + d) + e) + f) + (g + (i + (j + rest)));
      { AppendAssoc(((((a + b) + c) + d) + e), f, g + (i + (j + rest))); }
      ((((a + b) + c) + d) + e) + (f + (g + (i + (j + rest))));
      { AppendAssoc((((a + b) + c) + d), e, f + (g + (i + (j + rest)))); }
      (((a + b) + c) + d) + (e + (f + (g + (i + (j + rest)))));
      { AppendAssoc(((a + b) + c), d, e + (f + (g + (i + (j + rest))))); }
      ((a + b) + c) + (d + (e + (f + (g + (i + (j + rest))))));
      { AppendAssoc((a + b), c, d + (e + (f + (g + (i + (j + rest)))))); }
      (a + b) + FieldsBytes(m, rest);
      { AppendAssoc(a, b, FieldsBytes(m, rest)); }
      a + (b + FieldsBytes(m, rest));
    }
  }

  lemma AppendAssoc(x: seq<Byte>, y: seq<Byte>, z: seq<Byte>)
    ensures (x + y) + z == x + (y + z)
  {
  }

  /** The flags byte and the timestamp decode back; the strings follow from byte 9 on. */
  lemma HeaderStep(m: Message, tail: seq<Byte>)
    requires |tail| >= MinMessageSize - 9
    ensures ParseMessage([MessageFlags(m)] + (BeBytes(m.timestamp, 8) + tail))
            == ParseId(tail, Announced(m), Empty.(isRelay := m.isRelay, isPrivate := m.isPrivate, timestamp := m.timestamp), true)
  {
    var d := [MessageFlags(m)] + (BeBytes(m.timestamp, 8) + tail);
    assert d[1..9] == BeBytes(m.timestamp, 8);
    assert d[9..] == tail;
    U64RoundTrip(m.timestamp);
  }

  /**
   * Round trip: decoding an encoded message gives it back with each string
   * clamped to its array, whatever follows the encoding. For a message whose
   * strings fit their arrays this is the message itself (MessageRoundTrip).
   */
  lemma ClampedRoundTrip(m: Message, rest: seq<Byte>)
    requires Encodable(m)
    ensures ParseMessage(MessageBytes(m) + rest) == Decoded(Clamped(m))
  {
    MessageBytesThen(m, rest);
    HeaderStep(m, FieldsBytes(m, rest));
    FieldsRoundTrip(m, Empty.(isRelay := m.isRelay, isPrivate := m.isPrivate, timestamp := m.timestamp), rest);
  }

  /** A message whose strings fit their arrays decodes back from its encoding, whatever follows it. */
  lemma MessageRoundTrip(m: Message, rest: seq<Byte>)
    requires Valid(m)
    ensures Encodable(m)
    ensures ParseMessage(MessageBytes(m) + rest) == Decoded(m)
  {
    MessageSizeBound(m);
    ClampedRoundTrip(m, rest);
  }

  // ---------------------------------------------------------------------------
  // What decode accepts
  // ---------------------------------------------------------------------------

  /**
   * Where the mandatory part of `data` ends, if every mandatory field lies
   * within it: the id, the sender length byte, the sender, the two content
   * length bytes and the content.
   */
  function MandatoryEnd(data: seq<Byte>): (r: Option<nat>)
    ensures r.Some? ==> MinMessageSize <= r.value <= |data|
  {
    if |data| < MinMessageSize then None
    else
      var s := 10 + data[9] as nat;
      if s >= |data| then None
      else
        var c := s + 1 + data[s] as nat;
        if c + 2 > |data| then None
        else
          var e := c + 2 + DecodeU16Be(data[c..]);
          if e > |data| then None else Some(e)
  }

  lemma ContentAccepts(data: seq<Byte>, c: nat, present: Presence, m: Message)
    requires c <= |data|
    ensures ParseContent(data[c..], present, m, true).Decoded?
            <==> c + 2 <= |data| && c + 2 + DecodeU16Be(data[c..]) <= |data|
  {
  }

  lemma SenderAccepts(data: seq<Byte>, s: nat, present: Presence, m: Message)
    requires s <= |data|
    ensures ParseSender(data[s..], present, m, true).Decoded?
            <==> s < |data| && s + 1 + data[s] + 2 <= |data|
                 && s + 1 + data[s] + 2 + DecodeU16Be(data[s + 1 + data[s]..]) <= |data|
  {
    if s < |data| && s + 1 + data[s] <= |data| {
      var c := s + 1 + data[s];
      assert data[s..][1 + data[s]..] == data[c..];
      var sender := Copy(data[s..][1..1 + data[s]], SenderCapacity, true);
      ContentAccepts(data, c, present, m.(sender := sender.value));
    }
  }

  lemma IdAccepts(data: seq<Byte>, present: Presence, m: Message)
    requires |data| >= MinMessageSize
    ensures ParseId(data[9..], present, m, true).Decoded? <==> MandatoryEnd(data).Some?
  {
    var input := data[9..];
    var len := data[9] as nat;
    if 10 + len <= |data| {
      assert input[1 + len..] == data[10 + len..];
      var id := Copy(input[1..1 + len], IdCapacity, true);
      SenderAccepts(data, 10 + len, present, m.(id := id.value));
    }
  }

  /**
   * decode succeeds exactly when the input holds the 13 bytes it starts from and
   * every mandatory field; otherwise it reports a short input or a truncated
   * field. The optional fields never make it fail.
   */
  lemma DecodeAcceptance(data: seq<Byte>)
    ensures ParseMessage(data).Decoded? <==> MandatoryEnd(data).Some?
    ensures ParseMessage(data) == Rejected(Truncated) <==> |data| >= MinMessageSize && MandatoryEnd(data).None?
  {
    if |data| >= MinMessageSize {
      var m := Empty.(isRelay := HasBit(data[0], FlagIsRelay),
                      isPrivate := HasBit(data[0], FlagIsPrivate),
                      timestamp := BeU64(data[1..9]));
      IdAccepts(data, PresenceOf(data[0]), m);
      assert ParseMessage(data) == ParseId(data[9..], PresenceOf(data[0]), m, true);
    }
  }

  // ---------------------------------------------------------------------------
  // The source as written
  // ---------------------------------------------------------------------------

  lemma ReadOptionalAgrees(input: seq<Byte>, present: bool, capacity: nat)
    requires capacity > 0
    ensures ReadOptional(input, present, capacity, false).value.Some?
            ==> ReadOptional(input, present, capacity, false) == ReadOptional(input, present, capacity, true)
  {
  }

  lemma OptionalsAgree(input: seq<Byte>, present: Presence, m: Message)
    ensures ParseOptionals(input, present, m, false) != Undefined
            ==> ParseOptionals(input, present, m, false) == ParseOptionals(input, present, m, true)
  {
    var a := ReadOptional(input, present.originalSender, OriginalSenderCapacity, false);
    ReadOptionalAgrees(input, present.originalSender, OriginalSenderCapacity);
    var b := ReadOptional(a.rest, present.recipientNickname, RecipientNicknameCapacity, false);
    ReadOptionalAgrees(a.rest, present.recipientNickname, RecipientNicknameCapacity);
    ReadOptionalAgrees(b.rest, present.senderPeerId, SenderPeerIdCapacity);
  }

  lemma ContentAgrees(input: seq<Byte>, present: Presence, m: Message)
    ensures ParseContent(input, present, m, false) != Undefined
            ==> ParseContent(input, present, m, false) == ParseContent(input, present, m, true)
  {
    if |input| >= 2 && 2 + DecodeU16Be(input) <= |input| {
      var content := Copy(input[2..2 + DecodeU16Be(input)], ContentCapacity, true);
      OptionalsAgree(input[2 + DecodeU16Be(input)..], present, m.(content := content.value));
    }
  }

  lemma SenderAgrees(input: seq<Byte>, present: Presence, m: Message)
    ensures ParseSender(input, present, m, false) != Undefined
            ==> ParseSender(input, present, m, false) == ParseSender(input, present, m, true)
  {
    if input != [] && 1 + input[0] <= |input| {
      var sender := Copy(input[1..1 + input[0]], SenderCapacity, false);
      if sender.Some? {
        ContentAgrees(input[1 + input[0]..], present, m.(sender := sender.value));
      }
    }
  }

  lemma IdAgrees(input: seq<Byte>, present: Presence, m: Message)
    requires input != []
    ensures ParseId(input, present, m, false) != Undefined
            ==> ParseId(input, present, m, false) == ParseId(input, present, m, true)
  {
    if 1 + input[0] <= |input| {
      var id := Copy(input[1..1 + input[0]], IdCapacity, false);
      if id.Some? {
        SenderAgrees(input[1 + input[0]..], present, m.(id := id.value));
      }
    }
  }

  /**
   * Wherever the source as written stays within its input and its arrays, it
   * decodes exactly what the corrected decoder does.
   */
  lemma AsWrittenAgrees(data: seq<Byte>)
    ensures ParseWith(data, false) != Undefined ==> ParseWith(data, false) == ParseMessage(data)
  {
    if |data| >= MinMessageSize {
      var m := Empty.(isRelay := HasBit(data[0], FlagIsRelay),
                      isPrivate := HasBit(data[0], FlagIsPrivate),
                      timestamp := BeU64(data[1..9]));
      IdAgrees(data[9..], PresenceOf(data[0]), m);
    }
  }

  /**
   * A 13-byte input whose id runs to its very end: the source then reads the
   * sender length one byte past the input; the corrected decoder reports it
   * as truncated.
   */
  lemma SenderLengthOverread()
    ensures var data: seq<Byte> := [0, 0, 0, 0, 0, 0, 0, 0, 0, 3, 'a' as Byte, 'b' as Byte, 'c' as Byte];
            ParseWith(data, false) == Undefined && ParseMessage(data) == Rejected(Truncated)
  {
    var data: seq<Byte> := [0, 0, 0, 0, 0, 0, 0, 0, 0, 3, 'a' as Byte, 'b' as Byte, 'c' as Byte];
    var input := data[9..];
    assert input[1 + 3..] == [];
  }

  /**
   * An original sender of 100 bytes overflows its 32-byte array in the source;
   * the corrected decoder keeps its first 31 bytes.
   */
  lemma OriginalSenderOverflow()
    ensures var data := [0x04 as Byte, 0, 0, 0, 0, 0, 0, 0, 0, 0, 0, 0, 0, 100] + seq(100, _ => 'a' as Byte);
            && ParseWith(data, false) == Undefined
            && ParseMessage(data).Decoded?
            && ParseMessage(data).msg.originalSender == seq(31, _ => 'a' as Byte)
  {
    var name := seq(100, _ => 'a' as Byte);
    var data := [0x04 as Byte, 0, 0, 0, 0, 0, 0, 0, 0, 0, 0, 0, 0, 100] + name;
    assert HasBit(data[0], FlagHasOriginalSender);
    var rest := data[9..];
    assert rest[1..] == data[10..];
    assert data[10..][1..] == data[11..];
    assert data[11..][2..] == data[13..];
    assert data[14..] == name;
    assert data[13..][1..1 + 100] == name;
    assert CStr(name) == name;
    assert name[..31] == seq(31, _ => 'a' as Byte);
  }
}
