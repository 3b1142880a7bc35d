/** Where each field stands on the wire, byte by byte. */
module Layout {
  import opened Wrappers
  import opened Rounding
  import opened Wire
  import opened Payload
  import opened PayloadLaws
  import opened Messages

  /** The byte at a place of a big-endian field that many bytes wide. */
  function Digit(value: int, width: nat, i: nat): int
    requires i < width
  {
    value / Range(width - 1 - i) % 256
  }

  /** The four ASCII characters that name an entry. */
  function Tag(e: Entry): seq<byte> {
    match e
    case HostTime(_) => [0x5f, 0x5f, 0x68, 0x74]
    case GhostTime(_) => [0x5f, 0x5f, 0x67, 0x74]
    case PrevGhostTime(_) => [0x5f, 0x70, 0x67, 0x74]
    case Timeline(_) => [0x74, 0x6d, 0x6c, 0x6e]
    case SessionMembership(_) => [0x73, 0x65, 0x73, 0x73]
    case StartStopState(_, _, _) => [0x73, 0x74, 0x73, 0x74]
    case MeasurementEndpointV4(_) => [0x6d, 0x65, 0x70, 0x34]
    case AudioEndpointV4(_) => [0x61, 0x65, 0x70, 0x34]
  }

  /** An entry is its name, its length and its body. */
  lemma EntryLayout(e: Entry)
    requires Valid(e) && Encodable(e)
    ensures var bytes, body := EncodeEntry(e).value, EncodeBody(e).value;
            && |bytes| == 8 + |body|
            && bytes[..4] == Tag(e)
            && (forall i :: 0 <= i < 4 ==> bytes[4 + i] == Digit(|body|, 4, i))
            && bytes[8..] == body
  {
    BodyRoundTrip(e);
    hide EncodeBody, Key, Tag, DecodeBody, BigEndian;
    var body := EncodeBody(e).value;
    TagBytes(e);
    forall i | 0 <= i < 4 ensures Frame(Key(e), body)[4 + i] == Digit(|body|, 4, i) {
      BigEndianAt(|body|, 4, i);
    }
  }

  lemma TagBytes(e: Entry)
    ensures BigEndian(Key(e), 4) == Tag(e)
  {
    EncodeDecoded(Tag(e));
    FromBigEndianIsWeighted(Tag(e));
    FourBytes(Tag(e));
  }

  lemma FourBytes(b: seq<byte>)
    requires |b| == 4
    ensures Weighted(b) == b[0] as int * 0x100_0000 + b[1] as int * 0x1_0000 + b[2] as int * 0x100 + b[3]
  {
    Ranges();
    assert Range(3) == 0x100_0000 && Range(0) == 1;
    assert b[1..][1..] == b[2..] && b[2..][1..] == b[3..] && b[3..][1..] == [];
    assert Weighted(b[3..]) == b[3];
    assert Weighted(b[2..]) == b[2] as int * 0x100 + b[3];
    assert Weighted(b[1..]) == b[1] as int * 0x1_0000 + b[2] as int * 0x100 + b[3];
  }

  /** Address first, then port; absence is six zeros. */
  lemma EndpointLayout(endpoint: Option<Endpoint>)
    requires ValidEndpoint(endpoint)
    ensures var bytes := EncodeEndpoint(endpoint);
            var ep := if endpoint.Some? then endpoint.value else Endpoint(0, 0);
            && |bytes| == 6
            && (forall i :: 0 <= i < 4 ==> bytes[i] == Digit(ep.ip, 4, i))
            && bytes[4] == ep.port / 256 && bytes[5] == ep.port % 256
  {
    var ep := if endpoint.Some? then endpoint.value else Endpoint(0, 0);
    forall i | 0 <= i < 4 ensures EncodeEndpoint(endpoint)[i] == Digit(ep.ip, 4, i) {
      BigEndianAt(ep.ip, 4, i);
    }
    TwoBytes(ep.port);
  }

  lemma TwoBytes(x: nat)
    requires x < 0x1_0000
    ensures BigEndian(x, 2) == [x / 256, x % 256]
  {
    Ranges();
    BigEndianAt(x, 2, 0);
    BigEndianAt(x, 2, 1);
    assert Range(0) == 1;
  }

  /** A flag byte, then beats, then time, each a 64-bit number. */
  lemma StartStopLayout(isPlaying: bool, beats: int, time: int)
    requires InI64(beats) && InDuration(time)
    ensures var body := EncodeBody(StartStopState(isPlaying, beats, time)).value;
            var micros := Clamp(Micros(time), I64_MIN, I64_MAX);
            && |body| == 17
            && body[0] == (if isPlaying then 1 else 0)
            && (forall i :: 0 <= i < 8 ==> body[1 + i] == Digit(beats % 0x1_0000_0000_0000_0000, 8, i))
            && (forall i :: 0 <= i < 8 ==> body[9 + i] == Digit(micros % 0x1_0000_0000_0000_0000, 8, i))
  {
    forall i: nat | i < 8
      ensures EncodeI64(beats)[i] == Digit(beats % 0x1_0000_0000_0000_0000, 8, i)
    {
      I64Bytes(beats, i);
    }
    var micros := Clamp(Micros(time), I64_MIN, I64_MAX);
    forall i: nat | i < 8
      ensures EncodeI64(micros)[i] == Digit(micros % 0x1_0000_0000_0000_0000, 8, i)
    {
      I64Bytes(micros, i);
    }
  }

  /** A time entry is its whole microseconds as a 64-bit number. */
  lemma TimeLayout(time: int)
    requires InI64(Micros(time))
    ensures EncodeTime(time).Ok? && |EncodeTime(time).value| == 8
    ensures forall i :: 0 <= i < 8 ==> EncodeTime(time).value[i] == Digit(Micros(time) % 0x1_0000_0000_0000_0000, 8, i)
  {
    forall i: nat | i < 8
      ensures EncodeI64(Micros(time))[i] == Digit(Micros(time) % 0x1_0000_0000_0000_0000, 8, i)
    {
      I64Bytes(Micros(time), i);
    }
  }

  /** Microseconds are cut towards zero: the sign stays and less than a microsecond is lost. */
  lemma MicrosTruncate(time: int)
    ensures Abs(1000 * Micros(time)) <= Abs(time) < Abs(1000 * Micros(time)) + 1000
    ensures time >= 0 ==> Micros(time) >= 0
    ensures time <= 0 ==> Micros(time) <= 0
  {
    DivNat(Abs(time), 1000);
  }

  /** Protocol name and version, message type, lifetime, group and sender; then the payload. */
  lemma MessageLayout(header: MessageHeader, entries: seq<Entry>)
    requires ValidHeader(header) && AllValid(entries) && MessageBytes(header, entries).Ok?
    ensures var bytes := MessageBytes(header, entries).value;
            && |bytes| >= 20
            && bytes[..8] == [0x5f, 0x61, 0x73, 0x64, 0x70, 0x5f, 0x76, 1]
            && bytes[8] == header.messageType && bytes[9] == header.ttl
            && bytes[10] == header.groupId / 256 && bytes[11] == header.groupId % 256
            && bytes[12..20] == header.ident
            && EncodeEntries(entries) == Ok(bytes[20..])
  {
    TwoBytes(header.groupId);
    var head := PROTOCOL_HEADER + EncodeHeader(header);
    assert |head| == 20;
    assert head[12..20] == header.ident;
  }

  // ----- what is refused, over all byte strings -----

  /** Exactly the strings that start with the protocol's name and a known type have a header. */
  lemma HeaderExactlyWhen(data: seq<byte>)
    ensures var named := |data| >= 20 && data[..8] == [0x5f, 0x61, 0x73, 0x64, 0x70, 0x5f, 0x76, 1];
            && (ParseMessageHeader(data) == Err(InvalidMessageSize) <==> |data| < 20)
            && (ParseMessageHeader(data) == Err(InvalidProtocolHeader) <==> |data| >= 20 && !named)
            && (ParseMessageHeader(data) == Err(UnknownMessageType) <==> named && data[8] >= 4)
            && (ParseMessageHeader(data).Ok? <==> named && data[8] < 4)
            && (ParseMessageHeader(data).Ok? ==>
                  && ParseMessageHeader(data).value.1 == 20
                  && EncodeHeader(ParseMessageHeader(data).value.0) == data[8..20])
  {
    if |data| >= 20 {
      var bytes := data[8..20];
      EncodeDecoded(bytes[2..4]);
      assert bytes == [bytes[0], bytes[1]] + bytes[2..4] + bytes[4..];
    }
  }

  /** Length of a known entry's body. */
  function BodySize(key: nat): nat
    requires Known(key)
  {
    if key == TIMELINE_KEY then 24
    else if key == START_STOP_KEY then 17
    else if key == MEASUREMENT_ENDPOINT_KEY || key == AUDIO_ENDPOINT_KEY then 6
    else 8
  }

  /** A known entry is refused for its length or for a flag above one, and for nothing else. */
  lemma BodyRefusedExactlyWhen(key: nat, body: seq<byte>)
    ensures var r := DecodeBody(key, body);
            && (r == Err(SizeMismatch) <==> Known(key) && |body| != BodySize(key))
            && (r.Err? && r.error != SizeMismatch <==> key == START_STOP_KEY && |body| == 17 && body[0] > 1)
            && (r.Err? && r.error != SizeMismatch ==> r.error == InvalidBool(body[0]))
            && (r == Ok(None) <==> !Known(key))
  {
    hide DecodeTime, DecodeI64, DecodeEndpoint;
  }

  /** An audio endpoint without address or without port reads as none, and is written back as zeros. */
  predicate HalfEndpoint(key: nat, body: seq<byte>) {
    key == AUDIO_ENDPOINT_KEY && |body| == 6 && (body[..4] == [0, 0, 0, 0] || body[4..] == [0, 0])
  }

  /** What is read is what was written: the entry encodes to the very bytes it was decoded from. */
  lemma DecodedEncodesBack(key: nat, body: seq<byte>)
    requires DecodeBody(key, body).Ok? && DecodeBody(key, body).value.Some?
    ensures var e := DecodeBody(key, body).value.value;
            && Key(e) == key && Valid(e)
            && EncodeBody(e) == Ok(if HalfEndpoint(key, body) then [0, 0, 0, 0, 0, 0] else body)
  {
    hide DecodeTime, DecodeEndpoint, EncodeEndpoint, EncodeI64, DecodeI64;
    if |body| == 8 {
      TimeBytesBack(body);
    } else if |body| == 17 {
      I64BytesBack(body[1..9]);
      TimeBytesBack(body[9..]);
      assert body == [body[0]] + body[1..9] + body[9..];
    } else if |body| == 6 {
      EndpointBytesBack(body);
    }
  }

  lemma I64BytesBack(bytes: seq<byte>)
    requires |bytes| == 8
    ensures EncodeI64(DecodeI64(bytes)) == bytes
  {
    EncodeDecoded(bytes);
    Ranges();
  }

  lemma TimeBytesBack(bytes: seq<byte>)
    requires |bytes| == 8
    ensures Micros(DecodeTime(bytes)) == DecodeI64(bytes) && EncodeI64(DecodeI64(bytes)) == bytes
  {
    I64BytesBack(bytes);
  }

  lemma EndpointBytesBack(bytes: seq<byte>)
    requires |bytes| == 6
    ensures EncodeEndpoint(Some(DecodeEndpoint(bytes))) == bytes
    ensures DecodeEndpoint(bytes).ip == 0 <==> bytes[..4] == [0, 0, 0, 0]
    ensures DecodeEndpoint(bytes).port == 0 <==> bytes[4..] == [0, 0]
    ensures bytes[..4] == [0, 0, 0, 0] && bytes[4..] == [0, 0] ==> bytes == [0, 0, 0, 0, 0, 0]
    ensures EncodeEndpoint(None) == [0, 0, 0, 0, 0, 0]
  {
    EncodeDecoded(bytes[..4]);
    EncodeDecoded(bytes[4..]);
    ZeroBytes();
    Ranges();
    DecodeEncoded(0, 4);
    DecodeEncoded(0, 2);
    assert bytes == bytes[..4] + bytes[4..];
  }

  lemma ZeroBytes()
    ensures BigEndian(0, 4) == [0, 0, 0, 0] && BigEndian(0, 2) == [0, 0]
  {
    forall i: nat | i < 4 ensures BigEndian(0, 4)[i] == 0 {
      BigEndianAt(0, 4, i);
    }
    TwoBytes(0);
  }

  /** Decoding consumes whole entries and stops: at a short tail, a cut entry, or a refused body. */
  lemma {:induction false} DecodingStops(data: seq<byte>) returns (k: nat)
    ensures k <= |data| && Framed(data[..k])
    ensures DecodeAll(data[..k]) == Decoded(DecodeAll(data).entries, None)
    ensures var rest := data[k..];
            match DecodeAll(data).error
            case None => |rest| < 8
            case Some(error) =>
              && |rest| >= 8
              && if EntryEnd(rest) > |rest| then error == TruncatedEntry
                 else DecodeBody(HeaderKey(rest), rest[8..EntryEnd(rest)]) == Err(error)
    decreases |data|
  {
    hide DecodeBody;
    k := 0;
    assert data[..0] == [] && data[0..] == data;
    if |data| >= 8 && EntryEnd(data) <= |data| && DecodeBody(HeaderKey(data), data[8..EntryEnd(data)]).Ok? {
      var end := EntryEnd(data);
      var j := DecodingStops(data[end..]);
      k := end + j;
      var front := data[..k];
      assert data[k..] == data[end..][j..];
      assert front[..4] == data[..4] && front[4..8] == data[4..8] && front[8..end] == data[8..end];
      assert front[end..] == data[end..][..j];
    }
  }
}
