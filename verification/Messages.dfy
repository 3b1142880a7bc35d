/** Discovery messages: a protocol header, a message header and a payload in at most 512 bytes. */
module Messages {
  import opened Wrappers
  import opened Wire
  import opened Payload
  import opened PayloadLaws

  const MAX_MESSAGE_SIZE: nat := 512
  const PROTOCOL_HEADER: seq<byte> := [0x5f, 0x61, 0x73, 0x64, 0x70, 0x5f, 0x76, 1]
  const HEADERS_SIZE: nat := 20
  const MESSAGE_TYPE_COUNT: nat := 4

  datatype MessageHeader = MessageHeader(messageType: byte, ttl: byte, groupId: nat, ident: seq<byte>)

  predicate ValidHeader(h: MessageHeader) {
    h.groupId < 0x1_0000 && |h.ident| == 8
  }

  function EncodeHeader(h: MessageHeader): (bytes: seq<byte>)
    requires ValidHeader(h)
    ensures |bytes| == 12
  {
    [h.messageType, h.ttl] + BigEndian(h.groupId, 2) + h.ident
  }

  function DecodeHeader(bytes: seq<byte>): (h: MessageHeader)
    requires |bytes| == 12
    ensures ValidHeader(h)
  {
    EncodeDecoded(bytes[2..4]);
    Ranges();
    MessageHeader(bytes[0], bytes[1], FromBigEndian(bytes[2..4]), bytes[4..])
  }

  /** The size check comes first and looks only at the announced sizes. */
  method EncodeMessage(header: MessageHeader, payload: Payload) returns (message: Result<seq<byte>>)
    requires ValidHeader(header) && AllValid(payload.entries)
    ensures message == MessageBytes(header, payload.entries)
  {
    var size := payload.Size();
    var messageSize := HEADERS_SIZE + size;
    if messageSize > MAX_MESSAGE_SIZE {
      return Err(MessageTooLarge(messageSize));
    }
    var encoded := PROTOCOL_HEADER;
    encoded := encoded + EncodeHeader(header);
    var body := payload.Encode();
    if body.Err? {
      return Err(body.error);
    }
    return Ok(encoded + body.value);
  }

  function MessageBytes(header: MessageHeader, entries: seq<Entry>): Result<seq<byte>>
    requires ValidHeader(header) && AllValid(entries)
  {
    if HEADERS_SIZE + AnnouncedSize(entries) > MAX_MESSAGE_SIZE then
      Err(MessageTooLarge(HEADERS_SIZE + AnnouncedSize(entries)))
    else
      match EncodeEntries(entries)
      case Err(error) => Err(error)
      case Ok(body) => Ok(PROTOCOL_HEADER + EncodeHeader(header) + body)
  }

  function ParseMessageHeader(data: seq<byte>): (r: Result<(MessageHeader, nat)>)
    ensures r.Ok? ==> r.value.1 == HEADERS_SIZE <= |data|
  {
    if |data| < HEADERS_SIZE then Err(InvalidMessageSize)
    else if data[..8] != PROTOCOL_HEADER then Err(InvalidProtocolHeader)
    else
      var header := DecodeHeader(data[8..HEADERS_SIZE]);
      if header.messageType >= MESSAGE_TYPE_COUNT then Err(UnknownMessageType) else Ok((header, HEADERS_SIZE))
  }

  method ParsePayload(data: seq<byte>) returns (payload: Result<seq<Entry>>)
    ensures payload == if DecodeAll(data).error.Some? then Err(DecodeAll(data).error.value)
                       else Ok(DecodeAll(data).entries)
  {
    var p := new Payload();
    var result := p.Decode(data);
    if result.Err? {
      return Err(result.error);
    }
    assert p.entries == DecodeAll(data).entries;
    return Ok(p.entries);
  }

  // ----- laws -----

  lemma HeaderRoundTrip(h: MessageHeader)
    requires ValidHeader(h)
    ensures DecodeHeader(EncodeHeader(h)) == h
  {
    var bytes := EncodeHeader(h);
    Ranges();
    assert bytes[2..4] == BigEndian(h.groupId, 2);
    assert bytes[4..] == h.ident;
    DecodeEncoded(h.groupId, 2);
  }

  /**
   A message is produced exactly when its announced size fits and every time can be written;
   it is then within the limit exactly when the 32-bit sum of its entries did not wrap.
   */
  lemma MessageFits(header: MessageHeader, entries: seq<Entry>)
    requires ValidHeader(header) && AllValid(entries)
    ensures MessageBytes(header, entries).Ok? <==>
              20 + AnnouncedSize(entries) <= 512 && AllEncodable(entries)
    ensures MessageBytes(header, entries).Ok? ==>
              && |MessageBytes(header, entries).value| == 20 + EntriesSize(entries)
              && (|MessageBytes(header, entries).value| <= 512 <==> EntriesSize(entries) < 0x1_0000_0000)
    ensures MessageBytes(header, entries).Err? ==>
              MessageBytes(header, entries).error ==
                if HEADERS_SIZE + AnnouncedSize(entries) > MAX_MESSAGE_SIZE
                then MessageTooLarge(HEADERS_SIZE + AnnouncedSize(entries)) else TimeOutOfRange
  {
    hide EncodeEntries, EntriesSize, AllEncodable, AllValid, EncodeHeader;
    EncodeSucceeds(entries);
    WrapsOrFits(EntriesSize(entries));
  }

  lemma WrapsOrFits(size: nat)
    ensures size < U32_RANGE ==> size % U32_RANGE == size
  {
  }

  lemma {:induction false} RepeatedSize(e: Entry, n: nat)
    ensures EntriesSize(seq(n, _ => e)) == n * (HEADER_SIZE + EntrySize(e))
  {
    if n > 0 {
      var es := seq(n, _ => e);
      assert es[..n - 1] == seq(n - 1, _ => e);
      RepeatedSize(e, n - 1);
      assert n * (HEADER_SIZE + EntrySize(e)) == (n - 1) * (HEADER_SIZE + EntrySize(e)) + (HEADER_SIZE + EntrySize(e));
    }
  }

  /** The wrap is real: 2^28 times announce no bytes at all, and four gigabytes are produced. */
  lemma WrappedMessagePasses(header: MessageHeader) returns (entries: seq<Entry>)
    requires ValidHeader(header)
    ensures AllValid(entries) && AnnouncedSize(entries) == 0
    ensures MessageBytes(header, entries).Ok?
    ensures |MessageBytes(header, entries).value| == HEADERS_SIZE + U32_RANGE
  {
    entries := seq(0x1000_0000, _ => HostTime(0));
    RepeatedSize(HostTime(0), 0x1000_0000);
    MessageFits(header, entries);
  }

  /** What a peer parses from a produced message. */
  lemma MessageRoundTrip(header: MessageHeader, entries: seq<Entry>)
    requires ValidHeader(header) && AllValid(entries)
    requires MessageBytes(header, entries).Ok?
    ensures |MessageBytes(header, entries).value| >= HEADERS_SIZE
    ensures ParseMessageHeader(MessageBytes(header, entries).value)
         == if header.messageType < MESSAGE_TYPE_COUNT then Ok((header, HEADERS_SIZE)) else Err(UnknownMessageType)
    ensures DecodeAll(MessageBytes(header, entries).value[HEADERS_SIZE..]) == Decoded(NormalizeAll(entries), None)
  {
    MessageFits(header, entries);
    var body := EncodeEntries(entries).value;
    var data := PROTOCOL_HEADER + EncodeHeader(header) + body;
    assert data[..8] == PROTOCOL_HEADER;
    assert data[8..HEADERS_SIZE] == EncodeHeader(header);
    assert data[HEADERS_SIZE..] == body;
    HeaderRoundTrip(header);
    PayloadRoundTrip(entries);
  }

  /** The message arrives with the same header and the same entries. */
  predicate Delivered(header: MessageHeader, entries: seq<Entry>, message: Result<seq<byte>>) {
    && message.Ok?
    && ParseMessageHeader(message.value) == Ok((header, HEADERS_SIZE))
    && DecodeAll(message.value[HEADERS_SIZE..]) == Decoded(entries, None)
  }

  /** Exactly the messages of a known type, announced within 512 bytes, with entries in normal form, round-trip. */
  lemma DeliveredExactlyWhen(header: MessageHeader, entries: seq<Entry>)
    requires ValidHeader(header) && AllValid(entries)
    ensures Delivered(header, entries, MessageBytes(header, entries)) <==>
              && header.messageType < 4
              && 20 + AnnouncedSize(entries) <= 512
              && AllNormal(entries)
  {
    MessageFits(header, entries);
    forall i | 0 <= i < |entries| ensures Normal(entries[i]) ==> Encodable(entries[i]) {
      NormalIffFixed(entries[i]);
    }
    if MessageBytes(header, entries).Ok? {
      MessageRoundTrip(header, entries);
      PayloadRoundTrip(entries);
      IdentityExactlyOnNormal(entries);
    }
  }
}
