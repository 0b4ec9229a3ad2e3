# BitChat for the Flipper Zero: a verified model of its core

BitChat is a Bluetooth LE mesh chat. This project models the core of its Flipper Zero app in Dafny and proves properties of that model.

**The wire codec** (`protocol/bitchat_protocol.c` and `.h`). This is the main part.
- The *packet* is the routing envelope. It holds:
  - version, type and TTL bytes;
  - a big-endian 64-bit timestamp;
  - a flags byte;
  - a big-endian 16-bit payload length;
  - an 8-byte sender id;
  - an optional 8-byte recipient id;
  - the payload;
  - an optional 64-byte signature.
- The *message* is the chat payload. It holds:
  - a flags byte;
  - the timestamp;
  - a length-prefixed id and sender;
  - content with a two-byte length;
  - up to three optional strings, each gated by a flag.
- The codec's helpers:
  - the big-endian integer helpers;
  - the version-4 UUID formatter for message ids;
  - the calendar-to-milliseconds timestamp conversion.

**The chat screen** (`ui/chat_view.c`).
- A history of at most 50 messages.
- The oldest message is evicted when a new one arrives at 50.
- A scroll position over five visible rows, the scroll arrows and the key handling.

**The device identity** (`storage/bitchat_identity.c`).
- The peer id is derived from the Noise public key.
- The default nickname, `flipper_` and eight hex digits.
- The nickname accessors.
- The zeroing of the private keys on release.
- The test a stored record must pass to be loaded.

**The BLE transport's state** (`ble/bitchat_ble.c`).
- The active/inactive state machine.
- The 512-byte MTU check.
- The peer table and the lookup in it.

## How the model is built

The wire formats are pure functions, and the encoders and decoders are imperative methods proved against them:
- `Packet.PacketBytes` and `Message.MessageBytes` give the bytes an encoder writes.
- `Packet.DecodeInto` and `Message.ParseMessage` give what a decoder produces.
- The encoders write a caller's array. Their contracts give the new array contents as the encoding followed by the untouched old bytes.
- The decoders walk a cursor over the input. Their contracts tie the result to the decoding function.
- The round trips, the acceptance conditions and the array bounds are proved as lemmas about those functions.

Characters and bytes are numbers 0..255. A C string is the sequence of bytes before its terminator, so every string value is NUL-free.

The source's integer widths are subset types (`Byte`, `U16`, `U32`, `U64`). Unsigned wrap-around in the source is handled case by case:
- **Written out.** The timestamp's 32-bit day count is a remainder modulo 2^32.
- **Written out.** The chat screen's unsigned `end_idx - start_idx` (`ui/chat_view.c:80`) is modelled in `ChatView.WindowEnd`: a scroll position past the end would wrap the difference to a large value, and the model sends that case to the five-row branch, as the wrapped value would. In reachable states it does not arise (`ChatView.WindowRows`).
- **Excluded by a precondition.** The `uint8_t` truncation of `strlen` in `bitchat_message_encode` is excluded by requiring every string to fit its array (see "## Left out").
- **Excluded by a precondition.** The `size - 1` in `bitchat_identity_get_nickname` is excluded by requiring a size of at least 1 (see "## Left out").

### The flawed code paths, as written and corrected

Where the source reads or writes out of bounds, the model keeps two variants:
- **As written.** The code path exactly as written. It ends in `ReadPastEnd` or `Undefined` wherever C would have undefined behaviour.
- **Corrected.** It adds the missing check. The rest of the model uses this variant.

Lemmas state exactly where the two differ. See "## Findings".

In two places the source's comments and constants disagree with its code. The model follows the code:
- **The packet header.** `BITCHAT_HEADER_SIZE` and the encoder's comment say the header is 13 bytes. The code writes 14: version, type, TTL, 8 timestamp bytes, flags and 2 length bytes.
- **Decode failures.** The header's comment says decode returns false on error. The model also states what the caller's struct holds when it does.

The chat screen, the identity and the transport are classes whose methods update fields in place:
- The message history is a 50-slot `array`, shifted in place when full.
- The identity's private keys and nickname are arrays. An identity is created or loaded; a loaded one's nickname array need not hold a terminator.
- The peer table is an `array`.

## Model

| member | source | states |
|---|---|---|
| Bytes.EncodeU16Be | protocol/bitchat_protocol.c:18-21 | The two bytes are the 2-byte big-endian form of the value. |
| Bytes.DecodeU16Be | protocol/bitchat_protocol.c:26-28 | The result is the number the first two bytes denote, high byte first. |
| Bytes.U16RoundTrip | protocol/bitchat_protocol.c:18-28 | decode_u16_be gives back every 16-bit value encode_u16_be wrote, whatever bytes follow. |
| Bytes.U16Canonical | protocol/bitchat_protocol.c:18-28 | Every two bytes are the encoding of the value they decode to, so the two helpers are mutual inverses. |
| Bytes.BeValueOfBeBytes | protocol/bitchat_protocol.c:33-48 | Reading back the n-byte big-endian form of v gives v modulo 256^n. |
| Bytes.BeBytesOfBeValue | protocol/bitchat_protocol.c:33-48 | Every byte string is the big-endian form of the number it denotes. |
| Bytes.BeBytesAt | protocol/bitchat_protocol.c:33-37 | Byte n-1-k of the big-endian form is byte k of the value, as the shift loop computes it. |
| Bytes.U64RoundTrip | protocol/bitchat_protocol.c:33-48 | decode_u64_be gives back every 64-bit value encode_u64_be wrote. |
| Bytes.EncodeU64Be | protocol/bitchat_protocol.c:33-37 | The loop writes the 8 big-endian bytes of the value at the offset and changes no other byte. |
| Bytes.DecodeU64Be | protocol/bitchat_protocol.c:42-48 | The shift-and-or loop yields the number the 8 bytes denote. |
| Bytes.WriteBytes | protocol/bitchat_protocol.c:89-91 | A memcpy into the buffer puts the source bytes at the offset and keeps every other byte. |
| Bytes.Put | protocol/bitchat_protocol.c:89-109 | A copy after the bytes written so far extends them; the rest of the buffer keeps its old bytes. |
| Bytes.PutU64 | protocol/bitchat_protocol.c:74-76 | Same, for the 8 big-endian bytes of a timestamp. |
| CString.CStr | protocol/bitchat_protocol.h:61-71 | The string held by a char array is NUL-free, a prefix of the array, ends at a NUL if shorter, and is the whole array if that holds no NUL. |
| CString.CStrEndsAt | storage/bitchat_identity.c:165-166 | The string held by an array ends at its first NUL. |
| CString.StrNCopy | storage/bitchat_identity.c:165-166 | strncpy into an array terminated at n stores the longest prefix of the source of at most n characters. |
| Packet.FlagsOf | protocol/bitchat_protocol.c:78-83 | The flags byte is below 8; bit 0, 1 and 2 are set exactly when has_recipient, has_signature and is_compressed hold, each independently. |
| Packet.RequiredSizeAsWritten | protocol/bitchat_protocol.c:57-60 | The size the encoder checks lies between 21 and BITCHAT_MAX_PACKET_SIZE (65628), reaching the maximum exactly for a full 65535-byte payload with recipient and signature. |
| Packet.RequiredSize | protocol/bitchat_protocol.c:67-109 | The size the encoder writes is one byte more than the size it checks. |
| Packet.HeaderBytes | protocol/bitchat_protocol.c:69-87 | The fixed header is 14 bytes long. |
| Packet.PayloadBytes | protocol/bitchat_protocol.c:99-103 | The payload section is payload_length bytes when the pointer is set, and empty when it is NULL. |
| Packet.PacketBytes | protocol/bitchat_protocol.c:53-115 | The encoding's length is the required size, less the payload length when the payload pointer is NULL. |
| Packet.PacketEncode | protocol/bitchat_protocol.c:53-115 | With the size check corrected: a buffer below the required size gives 0 and is left untouched; otherwise the buffer starts with the packet's encoding, its length is returned, and later bytes are unchanged. |
| Packet.WriteSections | protocol/bitchat_protocol.c:89-109 | After the header, the sender id, the flagged recipient, the payload and the flagged signature are written in that order. |
| Packet.WriteHeader | protocol/bitchat_protocol.c:69-87 | The first 14 bytes become the encoded header; the rest of the buffer is unchanged. |
| Packet.WriteFront | protocol/bitchat_protocol.c:70-76 | Version, type, TTL and the big-endian timestamp fill the first 11 bytes. |
| Packet.DecodeInto | protocol/bitchat_protocol.c:120-194 | The corrected decoder never ends in the as-written decoder's read past the end; that every slice it takes is in bounds is checked by the verifier on DecodeWith's guarded reads. |
| Packet.DecodeWith | protocol/bitchat_protocol.c:120-194 | Both readings of decode: short input is reported exactly below 21 bytes; the read past the end happens exactly as written, on a 21-byte version-1 input; a success has version 1 and an 8-byte sender id. |
| Packet.ParseHeader | protocol/bitchat_protocol.c:133-155 | Parsing the header writes only header fields: the sender id, recipient, payload and signature the struct held are kept. |
| Packet.DecodeSections | protocol/bitchat_protocol.c:161-188 | The sections after the sender id either succeed or are reported truncated, and keep the sender id; on success a flagged recipient has 8 bytes, a flagged signature 64, and a stored payload exactly payload_length bytes, never empty. |
| Packet.PacketDecode | protocol/bitchat_protocol.c:120-194 | The cursor-based decoder returns true exactly when the decoding succeeds, and leaves the caller's struct as the decoding function says, including on failure. |
| Packet.DecodeSectionsInto | protocol/bitchat_protocol.c:161-188 | The flag-driven sections, read from the cursor after the sender id, agree with the decoding function. |
| Packet.DecodeAcceptance | protocol/bitchat_protocol.c:125-188 | Decode succeeds exactly when the input has version 1 and holds every byte its header declares; below 21 bytes it reports too short, and a wrong version byte gives an unsupported-version failure. |
| Packet.VersionWrittenBeforeRejection | protocol/bitchat_protocol.c:133-137 | A rejected version byte is left in the struct's version field, and nothing else is changed. |
| Packet.TrailingBytesIgnored | protocol/bitchat_protocol.c:120-194 | Bytes after a successfully decoded packet change nothing in the result. |
| Packet.HeaderRoundTrip | protocol/bitchat_protocol.c:133-155 | Decoding an encoded header gives back version, type, TTL, timestamp, the three booleans and the payload length; the flags field is the derived byte. |
| Packet.PacketRoundTrip | protocol/bitchat_protocol.c:53-194 | Any well-formed version-1 packet whose payload pointer is set, or whose payload is empty, decodes back from its encoding, whatever follows it. Unflagged recipient and signature keep the destination's old bytes, and an empty payload comes back NULL. |
| Packet.PacketLayout | protocol/bitchat_protocol.c:89-109 | The sections of an encoded packet lie in order after the 14-byte header, the sender id at bytes 14-21. |
| Packet.SectionsRoundTrip | protocol/bitchat_protocol.c:161-188 | The flagged recipient, the payload and the flagged signature decode back from their encoding. |
| Packet.NullPayloadNotDecodable | protocol/bitchat_protocol.c:99-103 | A NULL payload with a nonzero length gives an encoding payload_length bytes short, which the decoder rejects as truncated. |
| Packet.EncodeOverrunsCheckedSize | protocol/bitchat_protocol.c:57-65 | As written, every encoding is one byte longer than the size checked, and the largest packet is one byte longer than BITCHAT_MAX_PACKET_SIZE. |
| Packet.DecodeOverreadsAsWritten | protocol/bitchat_protocol.c:124-159 | As written, decode reads past its input exactly for 21-byte inputs with version 1; on every other input it agrees with the corrected decoder. |
| Message.MessageFlags | protocol/bitchat_protocol.c:206-214 | Bits 0x01 and 0x02 are is_relay and is_private; 0x04, 0x08 and 0x10 are set exactly when original_sender, recipient_nickname and sender_peer_id are non-empty. |
| Message.Field | protocol/bitchat_protocol.c:220-230 | A length-prefixed string is its length byte followed by the string. |
| Message.OptionalField | protocol/bitchat_protocol.c:239-259 | An optional field takes no bytes when the string is empty, else its length byte and the string. |
| Message.MessageBytes | protocol/bitchat_protocol.c:199-262 | The encoding's length, the size bitchat_message_encode returns, is exactly 13 fixed bytes plus the id, sender and content, plus a length byte and the string for each non-empty optional field. |
| Message.MessageSizeBound | protocol/bitchat_protocol.h:61-71 | Every message whose strings fit their arrays can be encoded, and its encoding is at most 416 bytes. |
| Message.MessageEncode | protocol/bitchat_protocol.c:199-262 | The buffer starts with the message's encoding, its length is returned, and later bytes are unchanged. |
| Message.WriteFixed | protocol/bitchat_protocol.c:206-218 | The flags byte and the big-endian timestamp fill the first 9 bytes. |
| Message.PutField | protocol/bitchat_protocol.c:220-230 | The length byte and the string are written after the bytes so far. |
| Message.PutContent | protocol/bitchat_protocol.c:232-237 | The two-byte content length and the content are written after the bytes so far. |
| Message.PutOptional | protocol/bitchat_protocol.c:239-259 | An optional field is written only when its string is non-empty. |
| Message.Copy | protocol/bitchat_protocol.c:292-293 | A copy into an array of a given capacity: as written it is defined only when the string fits; corrected, it keeps at most capacity-1 bytes. Either way the stored string fits and is a prefix of a NUL-free input. |
| Message.ReadOptional | protocol/bitchat_protocol.c:314-321 | An optional field read from the cursor fits its array; in the corrected reading it is always defined. |
| Message.OptionalOverrun | protocol/bitchat_protocol.c:314-321 | A flagged optional field whose length byte runs past the input is read as empty, only its length byte is consumed, and decoding goes on. |
| Message.ParseWith | protocol/bitchat_protocol.c:267-342 | An input is rejected as too short exactly when it is below 13 bytes; the corrected reading is never undefined. |
| Message.ParseId | protocol/bitchat_protocol.c:289-294 | The id step never reports a short input, and is never undefined in the corrected reading. |
| Message.ParseSender | protocol/bitchat_protocol.c:296-301 | Same for the sender step, whose length byte may lie past the end. |
| Message.ParseContent | protocol/bitchat_protocol.c:303-311 | Same for the content step, whose two length bytes may lie past the end. |
| Message.ParseOptionals | protocol/bitchat_protocol.c:313-339 | Same for the three optional fields. |
| Message.ParseMessage | protocol/bitchat_protocol.c:267-342 | The corrected decoder is always defined, stores only strings that fit their arrays, and reports a short input exactly below 13 bytes. |
| Message.DecodedFits | protocol/bitchat_protocol.c:289-339 | In either reading, every string of a decoded message ends inside its array. |
| Message.IdFits | protocol/bitchat_protocol.c:289-294 | From the id on, a decoded message's strings fit their arrays. |
| Message.SenderFits | protocol/bitchat_protocol.c:296-301 | From the sender on, a decoded message's strings fit their arrays. |
| Message.ContentFits | protocol/bitchat_protocol.c:303-311 | From the content on, a decoded message's strings fit their arrays. |
| Message.Clamp | protocol/bitchat_protocol.c:307-308 | A clamped string is shorter than its array, a prefix of the original, and the original itself when that fits. |
| Message.Clamped | protocol/bitchat_protocol.h:61-71 | Clamping every string leaves a message whose strings fit unchanged. |
| Message.MessageDecode | protocol/bitchat_protocol.c:267-342 | The cursor-based decoder, with the bounds checks added, succeeds exactly when the decoding function does, and then yields its message. |
| Message.DecodeFields | protocol/bitchat_protocol.c:289-301 | The id and sender, read from the cursor, agree with the decoding function. |
| Message.DecodeTail | protocol/bitchat_protocol.c:303-311 | The content, read from the cursor, agrees with the decoding function. |
| Message.DecodeOptionals | protocol/bitchat_protocol.c:313-339 | The three optional fields, read in order from the cursor, agree with the decoding function. |
| Message.ReadField | protocol/bitchat_protocol.c:289-301 | A length-prefixed field is accepted exactly when it lies within the input, and then its clamped copy and the cursor after it are returned. |
| Message.CopyString | protocol/bitchat_protocol.c:307-310 | The clamped memcpy and terminator store the corrected copy. |
| Message.ReadOptionalField | protocol/bitchat_protocol.c:314-321 | One optional field read from the cursor agrees with the reading function, and the cursor never moves back or past the end. |
| Message.CopyClamps | protocol/bitchat_protocol.c:307-310 | The corrected copy of a NUL-free string is its clamp. |
| Message.FieldSplit | protocol/bitchat_protocol.c:289-301 | In an encoded field the length byte, the string and the rest lie where decode looks for them. |
| Message.IdStep | protocol/bitchat_protocol.c:289-294 | An encoded id decodes back clamped, then decoding goes on at the sender. |
| Message.SenderStep | protocol/bitchat_protocol.c:296-301 | An encoded sender decodes back clamped, then decoding goes on at the content. |
| Message.ContentSplit | protocol/bitchat_protocol.c:303-306 | Encoded content: its length reads back, and the content and the rest lie after it. |
| Message.ContentStep | protocol/bitchat_protocol.c:303-311 | Encoded content decodes back clamped, then decoding goes on at the optional fields. |
| Message.OptionalStep | protocol/bitchat_protocol.c:314-321 | An encoded optional field, flagged exactly when non-empty, decodes back clamped and consumes only its own bytes. |
| Message.OptionalsRoundTrip | protocol/bitchat_protocol.c:239-259 | The three optional fields decode back clamped from their encoding. |
| Message.FieldsRoundTrip | protocol/bitchat_protocol.c:220-339 | Every string from the id on decodes back clamped from its encoding. |
| Message.MessageBytesThen | protocol/bitchat_protocol.c:199-262 | The encoding followed by any bytes splits into flags, timestamp and the strings. |
| Message.FieldsBytes | protocol/bitchat_protocol.c:220-259 | The strings after the 9 fixed bytes, followed by any tail: the encoding's length less 9 plus the tail, starting with the length-prefixed id. |
| Message.HeaderStep | protocol/bitchat_protocol.c:277-287 | The flags byte and timestamp decode back, and decoding goes on at the id with the optional fields the flags announce. |
| Message.ClampedRoundTrip | protocol/bitchat_protocol.c:199-342 | Every encodable message decodes back from its encoding, whatever follows, with each string clamped to its array. |
| Message.MessageRoundTrip | protocol/bitchat_protocol.c:199-342 | A message whose strings fit their arrays decodes back from its encoding unchanged, whatever follows it. |
| Message.MandatoryEnd | protocol/bitchat_protocol.c:273-306 | The end of the mandatory fields, when they are all present, lies between 13 and the input length. |
| Message.ContentAccepts | protocol/bitchat_protocol.c:303-306 | The content step succeeds exactly when the length bytes and the declared content lie within the input. |
| Message.SenderAccepts | protocol/bitchat_protocol.c:296-306 | The sender step succeeds exactly when the sender and the content lie within the input. |
| Message.IdAccepts | protocol/bitchat_protocol.c:289-306 | The id step succeeds exactly when every mandatory field lies within the input. |
| Message.DecodeAcceptance | protocol/bitchat_protocol.c:267-342 | Decode succeeds exactly when the input has its 13 bytes and every mandatory field; otherwise it reports a short input or a truncated field. The optional fields never make it fail. |
| Message.ReadOptionalAgrees | protocol/bitchat_protocol.c:314-321 | Where the as-written optional read is defined it equals the corrected one. |
| Message.OptionalsAgree | protocol/bitchat_protocol.c:313-339 | Same for the three optional fields. |
| Message.ContentAgrees | protocol/bitchat_protocol.c:303-339 | Same from the content on. |
| Message.SenderAgrees | protocol/bitchat_protocol.c:296-339 | Same from the sender on. |
| Message.IdAgrees | protocol/bitchat_protocol.c:289-339 | Same from the id on. |
| Message.AsWrittenAgrees | protocol/bitchat_protocol.c:267-342 | Wherever the source as written stays within its input and its arrays, it decodes exactly what the corrected decoder does. |
| Message.SenderLengthOverread | protocol/bitchat_protocol.c:290-298 | A 13-byte input whose id runs to its end makes the source read the sender length past the input; the corrected decoder reports it truncated. |
| Message.OriginalSenderOverflow | protocol/bitchat_protocol.c:314-321 | A 100-byte original sender overflows its 32-byte array as written; the corrected decoder keeps its first 31 bytes. |
| MessageId.HexDigit | protocol/bitchat_protocol.c:399-400 | %x prints a lowercase hex digit, never NUL. |
| MessageId.DigitValue | protocol/bitchat_protocol.c:399-400 | Every lowercase hex digit is the digit of exactly one value below 16. |
| MessageId.DigitValueOfHexDigit | protocol/bitchat_protocol.c:399-400 | Reading a printed digit gives back its value. |
| MessageId.Pow16 | protocol/bitchat_protocol.c:399-400 | 16^n is positive. |
| MessageId.Hex | protocol/bitchat_protocol.c:399-406 | %0nx prints exactly n lowercase hex digits. |
| MessageId.HexValue | protocol/bitchat_protocol.c:399-406 | n hex digits denote a number below 16^n. |
| MessageId.HexRoundTrip | protocol/bitchat_protocol.c:399-406 | The printed digits of a value below 16^n read back as that value. |
| MessageId.TimeMid | protocol/bitchat_protocol.c:402 | (r2 >> 16) & 0xFFFF fits four digits. |
| MessageId.TimeHigh | protocol/bitchat_protocol.c:403 | r2 & 0x0FFF fits three digits. |
| MessageId.ClockSeq | protocol/bitchat_protocol.c:404 | The clock sequence has the variant bits 10 on top: it lies in 0x8000..0xBFFF. |
| MessageId.Node | protocol/bitchat_protocol.c:405 | The node field fits 48 bits. |
| MessageId.FormatId | protocol/bitchat_protocol.c:399-406 | The id is 36 characters long. |
| MessageId.IdHyphens | protocol/bitchat_protocol.c:399-406 | For any random words the id has hyphens at 8, 13, 18 and 23 and nowhere else. |
| MessageId.IdDigits | protocol/bitchat_protocol.c:399-406 | Every other character is a lowercase hex digit. |
| MessageId.IdVersionAndVariant | protocol/bitchat_protocol.c:399-406 | Character 14 is the version digit '4', and character 19 is one of 8, 9, a, b (the RFC 4122 variant). |
| MessageId.VariantDigit | protocol/bitchat_protocol.c:404 | The leading digit of the clock sequence lies in 8..11. |
| MessageId.DigitsAt | protocol/bitchat_protocol.c:399-406 | A run of printed digits inside the id holds no hyphen. |
| MessageId.IdParts | protocol/bitchat_protocol.c:399-406 | Each printed word lies at its place in the 8-4-4-4-12 layout. |
| MessageId.Layout | protocol/bitchat_protocol.c:400 | The format's layout puts its five digit runs and hyphens at fixed positions. |
| MessageId.IdWordsRecoverable | protocol/bitchat_protocol.c:399-406 | The id determines r1, the top half of r2, the low 12 bits of r2, the clock sequence and the 48-bit node. |
| MessageId.IdFitsIdArray | protocol/bitchat_protocol.c:389-406 | The id is a NUL-free string that fits the 37-byte id array with its terminator. |
| Timestamp.MonthLength | protocol/bitchat_protocol.c:419-423 | Each month the loop adds is 28 to 31 days. |
| Timestamp.DaysBefore | protocol/bitchat_protocol.c:419-423 | The months before month m add at most 31 days each. |
| Timestamp.YearLength | protocol/bitchat_protocol.c:419-424 | The twelve months add up to 365 days, the length the year term uses. |
| Timestamp.GetTimestampMs | protocol/bitchat_protocol.c:412-432 | The month loop and the arithmetic compute the timestamp function of the RTC fields. |
| Timestamp.NoWrapFrom1970 | protocol/bitchat_protocol.c:418-424 | From 1970 on, the uint32 day count does not wrap. |
| Timestamp.DayCount | protocol/bitchat_protocol.c:418-424 | From 1970 on the uint32 day count is at least the day of the month, which is not made zero-based. |
| Timestamp.TimestampOf | protocol/bitchat_protocol.c:426-431 | The timestamp is a whole number of seconds, at least the day count's days, and a valid time of day keeps it inside its day. |
| Timestamp.TimestampSplits | protocol/bitchat_protocol.c:418-431 | From 1970 on, the timestamp is whole days of the day count plus the time of day. |
| Timestamp.NextDay | protocol/bitchat_protocol.c:418-431 | The next day of the month is exactly one day (86,400,000 ms) later. |
| Timestamp.NextMonth | protocol/bitchat_protocol.c:419-431 | The last day of a month and the first of the next are one day apart. |
| Timestamp.NextYear | protocol/bitchat_protocol.c:419-431 | December 31 and the next January 1 are one day apart. |
| Timestamp.February29IsMarch1 | protocol/bitchat_protocol.c:420 | With no leap years, February 29 gives the same timestamp as March 1. |
| Timestamp.EpochIsOneDayLate | protocol/bitchat_protocol.c:418 | As written, midnight of 1970-01-01 comes out as one day, not zero. |
| Timestamp.UnixTimestampCorrects | protocol/bitchat_protocol.c:418 | Counting the day from zero gives 0 at the epoch and exactly one day less than the source everywhere from 1970 on. |
| ChatView.Entry | ui/chat_view.c:255-258 | A stored entry keeps at most 31 sender and 127 content characters, each a prefix of what was given and all of it when short enough. |
| ChatView.WindowEnd | ui/chat_view.c:78-82 | The drawn window ends at most five rows after the scroll position, never before it, and not past the last message when the scroll position is within the list. |
| ChatView.WindowRows | ui/chat_view.c:78-82 | In a reachable state the drawn rows run from the scroll position, never past the last message, and number min(5, messages from there). |
| ChatView.ArrowsMatchKeys | ui/chat_view.c:111-118 | With messages on screen, the up arrow is drawn exactly when Up would scroll, and the down arrow exactly when Down would. |
| ChatView.ShowsDown | ui/chat_view.c:115-118 | The down arrow is drawn exactly when more than five messages lie from the scroll position on. |
| ChatView.CanScrollDown | ui/chat_view.c:145-150 | Down scrolls only while the next scroll position stays within the last full window. |
| ChatView.Pushed | ui/chat_view.c:253-270 | After a push the history holds at most 50 messages and the new one is last. |
| ChatView.Latest | ui/chat_view.c:11 | The kept window is at most 50 messages. |
| ChatView.PushedIsLatest | ui/chat_view.c:253-270 | One push keeps the last 50 of the old history followed by the new message. |
| ChatView.LatestOfLatest | ui/chat_view.c:261-269 | Dropping old messages early or late leaves the same last 50. |
| ChatView.HistoryKeepsLatest | ui/chat_view.c:243-278 | Whatever messages arrive, the history is the last 50 of everything added, in arrival order. |
| ChatView.ChatView.constructor | ui/chat_view.c:181-205 | A new screen has no messages, scroll 0, no peers, no connection, no callback, and the nickname "You". |
| ChatView.ChatView.SetCallback | ui/chat_view.c:227-238 | Sets or clears the callback and changes nothing else. |
| ChatView.ChatView.AddMessage | ui/chat_view.c:243-278 | The history becomes the push of the truncated entry, the oldest being dropped at 50. Past five messages the view scrolls so the last five show; the screen invariant is kept; nothing else changes. |
| ChatView.ChatView.ShiftOut | ui/chat_view.c:262 | The memmove moves slots 1..49 down to 0..48 and leaves slot 49. |
| ChatView.ChatView.HandleInput | ui/chat_view.c:130-176 | Only short presses and repeats act. Up and Down move one row exactly when they can, and are consumed then. OK is always consumed and notifies the callback when set. Back is never consumed. The invariant is kept. |
| ChatView.ChatView.SetPeerCount | ui/chat_view.c:283-293 | Sets the peer count and changes nothing else. |
| ChatView.ChatView.SetConnected | ui/chat_view.c:298-308 | Sets the connection flag and changes nothing else. |
| ChatView.ChatView.Clear | ui/chat_view.c:313-324 | The count and scroll go to zero; the slots, peer count, connection flag and nickname are unchanged. |
| ChatView.ChatView.SetNickname | ui/chat_view.c:329-341 | Stores at most 31 characters of the name, terminated, and changes nothing else. |
| Identity.KeyFill | storage/bitchat_identity.c:45-55 | Byte i of a key is the low byte of every other random word from its first one. |
| Identity.DefaultNickname | storage/bitchat_identity.c:61-64 | The default nickname is 16 characters starting with "flipper_", short enough that snprintf into the 32-byte array never cuts it. |
| Identity.DefaultNicknameShape | storage/bitchat_identity.c:61-64 | The default nickname is 16 characters: "flipper_" and two lowercase hex digits per byte of peer_id[0..3], which read back as that byte. |
| Identity.NicknameParts | storage/bitchat_identity.c:61-64 | Each printed byte lies at its place after the prefix. |
| Identity.HexByte | storage/bitchat_identity.c:62 | %02x of a byte reads back as the byte. |
| Identity.Padded | storage/bitchat_identity.c:165-166 | A string padded with NULs fills its array. |
| Identity.CStrPadded | storage/bitchat_identity.c:165-166 | The string read back from a NUL-padded array is the string written. |
| Identity.RecordBytes | storage/bitchat_identity.c:106-128 | The saved image is 169 bytes and starts with the version byte. |
| Identity.RecordOf | storage/bitchat_identity.c:83-84 | The 169 bytes read lay out a record whose version is the first byte. |
| Identity.Load | storage/bitchat_identity.c:74-101 | A loaded record is well-sized and has version 1. |
| Identity.LoadAcceptance | storage/bitchat_identity.c:83-90 | A file loads exactly when it holds a whole record starting with version 1; no file gives nothing. |
| Identity.LoadRoundTrip | storage/bitchat_identity.c:83-128 | A version-1 record saved and read back is the same record, whatever follows it in the file. |
| Identity.WrongVersionRefused | storage/bitchat_identity.c:84-89 | A record of another version is refused, however long the file. |
| Identity.NicknameInto | storage/bitchat_identity.c:145-156 | Nothing for an empty nickname; otherwise its first size-1 characters, all of it when it fits. |
| Identity.Identity.Nickname | storage/bitchat_identity.c:23 | The nickname the array holds is NUL-free and at most 32 characters; at most 31 when the array's last byte is a terminator; all 32 bytes exactly when the array holds no NUL, which a loaded record may. |
| Identity.Identity.AsRecord | storage/bitchat_identity.c:16-24 | The identity as a record is well-sized. |
| Identity.Identity.Create | storage/bitchat_identity.c:37-69 | A new identity has version 1 and keys filled from the random words. Its peer id is the first 8 bytes of the Noise public key, and its nickname is the default nickname, NUL-padded and terminated. |
| Identity.Identity.Loaded | storage/bitchat_identity.c:80-85 | The identity load returns is the accepted record laid over a fresh struct, its nickname array as read, terminated or not. |
| Identity.Identity.FillKeyPair | storage/bitchat_identity.c:45-55 | One key loop fills a private and a public key from alternating random words. |
| Identity.Identity.NicknameArray | storage/bitchat_identity.c:61-64 | The zeroed nickname array after printing holds the name, padded with NULs. |
| Identity.Identity.Free | storage/bitchat_identity.c:133-140 | Both private keys are all zero after release, and the nickname is unchanged. |
| Identity.Identity.GetNickname | storage/bitchat_identity.c:145-156 | Corrected: the copy is never read past the nickname array; nothing for an empty nickname, else its first size-1 characters, all of it when it fits. |
| Identity.Identity.GetNicknameAsWritten | storage/bitchat_identity.c:145-156 | As written, strncpy reads past the record exactly when the nickname array holds no NUL and the buffer has more than 33 bytes; otherwise the result is the corrected one. |
| Identity.Identity.UnterminatedNicknameOverread | storage/bitchat_identity.c:84-153 | A record whose nickname bytes are all 'a' loads, get_nickname as written reads past it for a 34-byte buffer, and the corrected read gives the 32 characters. |
| Identity.Identity.SetNickname | storage/bitchat_identity.c:161-169 | The array holds at most 31 characters of the name, padded and terminated; the keys are unchanged. |
| Identity.Identity.SavedIdentityLoads | storage/bitchat_identity.c:74-128 | An identity, saved and loaded, is the same record. |
| Ble.EmptyPeer | ble/bitchat_ble.c:36-37 | A zeroed table entry has an 8-byte peer id. |
| Ble.PeersCopied | ble/bitchat_ble.c:203 | The count copied is min(peer_count, max_peers). |
| Ble.Transport.constructor | ble/bitchat_ble.c:33-52 | A new transport is inactive with no peers, and its local peer id is the low bytes of 8 random words. |
| Ble.Transport.Start | ble/bitchat_ble.c:73-100 | On an active transport nothing changes; otherwise it takes the identity's peer id and becomes active. The peer count is unchanged. |
| Ble.Transport.Stop | ble/bitchat_ble.c:105-124 | On an inactive transport nothing changes; otherwise it becomes inactive with no peers. |
| Ble.Transport.Broadcast | ble/bitchat_ble.c:129-151 | Sending succeeds exactly when the transport is active and the packet is at most the 512-byte MTU. |
| Ble.Transport.SendToPeer | ble/bitchat_ble.c:156-192 | Sending succeeds exactly when the transport is active and the id equals that of one of the first peer_count table entries. |
| Ble.Transport.GetPeers | ble/bitchat_ble.c:197-209 | min(peer_count, max_peers) is returned, that many leading entries are copied in order, and the rest of the caller's array is unchanged. |
| Ble.Transport.IsActive | ble/bitchat_ble.c:214-217 | Reports whether the transport is active. |

## Left out

- Logging (`FURI_LOG_*`) is not modelled. The `furi_assert` checks become preconditions.
- The heap is not modelled. This covers `bitchat_packet_alloc`/`_free` and `bitchat_message_alloc`/`_free`. Payloads are fresh sequences, and the payload buffer leaked when a signature check fails after allocation is not tracked.
- Hardware randomness and the RTC read become parameters:
  - the random words (`furi_hal_random_get`);
  - the calendar fields (`furi_hal_rtc_get_datetime`);
  - the tick counter (`furi_get_tick`).
- The file system calls of `bitchat_identity_load`/`_save` are not modelled. A stored file is the byte sequence it holds, or None when it cannot be opened.
- The BLE transport leaves out:
  - the mutex;
  - the event queue;
  - the radio calls, all placeholders in the source;
  - the unused reassembly buffer `rx_buffer`;
  - `bitchat_ble_free`, which only stops the transport and releases memory.
- No operation in the source adds peers. The peer table is modelled in general, but in the source it is always empty.
- Drawing is not modelled. Only the window and arrow arithmetic of `chat_view_draw_callback` is kept, not the 39-character cut of a drawn line or the 64-byte line buffer. The GUI view, its allocation and its locking are left out too.
- What the text-input callback does when OK is pressed is not modelled. The callback's own context pointer is not modelled either.
- `bitchat_identity_get_public_key` and `bitchat_identity_get_peer_id` return fields. The model reads those fields directly.
- Packet types 0x01-0x07 are constants only. The codec stores the type byte as it is and never checks it.
- Message.MessageEncode: requires room for the whole encoding in the buffer, because the source ignores `buffer_size` and writes regardless.
- Message.MessageEncode: requires every string to fit its struct array. Under that, the `uint8_t` truncation of lengths above 255 cannot occur, so it is not modelled.
- Message.MessageDecode: states the message only when decoding succeeds. A failed decode leaves a partly filled struct in the source, and that struct is not stated.
- ChatView.ChatView.Clear: the slots past the count keep stale entries. The model leaves them unconstrained, beyond stating that the array is unchanged.
- Identity.Identity.GetNickname: requires a buffer size of at least 1. With size 0 the source's unsigned `size - 1` wraps, and `strncpy` and the terminator write outside the caller's buffer, which is undefined behaviour. Identity.NicknameInto, which specifies it, has the same precondition.
- Timestamp.GetTimestampMs: takes the calendar fields at their firmware widths. Months above 12 and days outside the month are accepted as the source accepts them, and are not rejected.

## Findings

| source | as written | input that shows it | evidently intended | confidence | as-written member | corrected member |
|---|---|---|---|---|---|---|
| protocol/bitchat_protocol.c:57-62 | The encoder checks `buffer_size` against a size computed from a 13-byte header, but writes a 14-byte header | Any packet whose payload is set, with `buffer_size` exactly the checked size: the last byte is written one past the buffer | Check against the 14-byte header actually written | high; not executed | Packet.EncodeOverrunsCheckedSize | Packet.PacketEncode |
| protocol/bitchat_protocol.c:124-159 | Decode requires 21 bytes but reads 14 header bytes and an 8-byte sender id | A 21-byte input starting with version 1: the last sender-id byte is read past the input | Reject inputs shorter than 22 bytes | high; not executed | Packet.DecodeOverreadsAsWritten | Packet.DecodeInto |
| protocol/bitchat_protocol.c:296-306 | The sender length byte and the two content length bytes are read without checking that they remain | `00 00 00 00 00 00 00 00 00 03 61 62 63`: the id ends the input, and the sender length is read past it | Report a truncated input | high; not executed | Message.SenderLengthOverread | Message.ParseMessage |
| protocol/bitchat_protocol.c:292-336 | id, sender and the optional strings are copied at their declared length into fixed arrays of 37, 32 and 17 bytes | Flags 0x04, 12 zero bytes, then an original sender of length 100: 101 bytes are written into a 32-byte array | Clamp each copy to its array, as the content already is | high; not executed | Message.OriginalSenderOverflow | Message.DecodedFits |
| protocol/bitchat_protocol.c:418 | The day of the month is added as it is, not counted from zero | 1970-01-01 00:00:00 gives 86,400,000 ms instead of 0 | Count the day from zero, as Unix time does | medium (the source calls the conversion approximate); not executed | Timestamp.EpochIsOneDayLate | Timestamp.UnixTimestampCorrects |
| storage/bitchat_identity.c:84-153 | Load accepts any 32 nickname bytes, and get_nickname copies with strncpy bounded only by the caller's size | A stored record whose 32 nickname bytes are all 'a', then get_nickname with a 34-byte buffer: strncpy reads the byte after the nickname, past the 169-byte record | Bound the copy by the nickname array, or refuse an unterminated nickname on load | high; not executed | Identity.Identity.UnterminatedNicknameOverread | Identity.Identity.GetNickname |
