/**
 The payload of discovery and measurement messages: a run of entries, each a key, a size
 and that many bytes. Decoding skips what it does not know, checks every length, and
 normalises times and endpoints; encoding writes only what it can represent.
 */
module Payload {
  import opened Wrappers
  import opened Rounding
  import opened Wire

  // ----- data -----

  datatype Result<T> = Ok(value: T) | Err(error: Error)

  datatype Error =
    | TimeOutOfRange
    | TruncatedEntry
    | SizeMismatch
    | InvalidBool(value: byte)
    | InvalidMessageSize
    | InvalidProtocolHeader
    | UnknownMessageType
    | MessageTooLarge(size: nat)

  datatype Endpoint = Endpoint(ip: nat, port: nat)

  /** Times are nanoseconds. Timelines are kept as their 24 wire bytes, session ids as 8. */
  datatype Entry =
    | HostTime(time: int)
    | GhostTime(time: int)
    | PrevGhostTime(time: int)
    | Timeline(body: seq<byte>)
    | SessionMembership(sessionId: seq<byte>)
    | StartStopState(isPlaying: bool, beats: int, timestamp: int)
    | MeasurementEndpointV4(endpoint: Option<Endpoint>)
    | AudioEndpointV4(endpoint: Option<Endpoint>)

  predicate ValidEndpoint(endpoint: Option<Endpoint>) {
    endpoint.Some? ==> endpoint.value.ip < 0x1_0000_0000 && endpoint.value.port < 0x1_0000
  }

  /** What the field types of the source guarantee. */
  predicate Valid(e: Entry) {
    match e
    case HostTime(t) => InDuration(t)
    case GhostTime(t) => InDuration(t)
    case PrevGhostTime(t) => InDuration(t)
    case Timeline(body) => |body| == 24
    case SessionMembership(id) => |id| == 8
    case StartStopState(_, beats, t) => InI64(beats) && InDuration(t)
    case MeasurementEndpointV4(ep) => ValidEndpoint(ep)
    case AudioEndpointV4(ep) => ValidEndpoint(ep)
  }

  ghost predicate AllValid(es: seq<Entry>) {
    forall i :: 0 <= i < |es| ==> Valid(es[i])
  }

  const HOST_TIME_KEY: nat := 0x5f5f6874
  const GHOST_TIME_KEY: nat := 0x5f5f6774
  const PREV_GHOST_TIME_KEY: nat := 0x5f706774
  const TIMELINE_KEY: nat := 0x746d6c6e
  const SESSION_KEY: nat := 0x73657373
  const START_STOP_KEY: nat := 0x73747374
  const MEASUREMENT_ENDPOINT_KEY: nat := 0x6d657034
  const AUDIO_ENDPOINT_KEY: nat := 0x61657034

  const HEADER_SIZE: nat := 8

  function Key(e: Entry): (k: nat)
    ensures k < 0x1_0000_0000
  {
    match e
    case HostTime(_) => HOST_TIME_KEY
    case GhostTime(_) => GHOST_TIME_KEY
    case PrevGhostTime(_) => PREV_GHOST_TIME_KEY
    case Timeline(_) => TIMELINE_KEY
    case SessionMembership(_) => SESSION_KEY
    case StartStopState(_, _, _) => START_STOP_KEY
    case MeasurementEndpointV4(_) => MEASUREMENT_ENDPOINT_KEY
    case AudioEndpointV4(_) => AUDIO_ENDPOINT_KEY
  }

  /** Keys the decoder turns into entries; every other key, `aep6` included, is skipped. */
  predicate Known(key: nat) {
    key in {HOST_TIME_KEY, GHOST_TIME_KEY, PREV_GHOST_TIME_KEY, TIMELINE_KEY, SESSION_KEY, START_STOP_KEY,
            MEASUREMENT_ENDPOINT_KEY, AUDIO_ENDPOINT_KEY}
  }

  function EntrySize(e: Entry): nat {
    match e
    case HostTime(_) => 8
    case GhostTime(_) => 8
    case PrevGhostTime(_) => 8
    case Timeline(_) => 24
    case SessionMembership(_) => 8
    case StartStopState(_, _, _) => 17
    case MeasurementEndpointV4(_) => 6
    case AudioEndpointV4(_) => 6
  }

  // ----- encoding -----

  /** Whole microseconds toward zero. */
  function Micros(time: int): int {
    TruncDiv(time, 1000)
  }

  function EncodeTime(time: int): Result<seq<byte>> {
    if InI64(Micros(time)) then Ok(EncodeI64(Micros(time))) else Err(TimeOutOfRange)
  }

  function EncodeEndpoint(endpoint: Option<Endpoint>): (bytes: seq<byte>)
    ensures |bytes| == 6
  {
    var ep := if endpoint.Some? then endpoint.value else Endpoint(0, 0);
    BigEndian(ep.ip, 4) + BigEndian(ep.port, 2)
  }

  function EncodeBody(e: Entry): Result<seq<byte>>
    requires Valid(e)
  {
    match e
    case HostTime(t) => EncodeTime(t)
    case GhostTime(t) => EncodeTime(t)
    case PrevGhostTime(t) => EncodeTime(t)
    case Timeline(body) => Ok(body)
    case SessionMembership(id) => Ok(id)
    case StartStopState(p, b, t) =>
      Ok([if p then 1 else 0] + EncodeI64(b) + EncodeI64(Clamp(Micros(t), I64_MIN, I64_MAX)))
    case MeasurementEndpointV4(ep) => Ok(EncodeEndpoint(ep))
    case AudioEndpointV4(ep) => Ok(EncodeEndpoint(ep))
  }

  function Frame(key: nat, body: seq<byte>): (bytes: seq<byte>)
    ensures |bytes| == HEADER_SIZE + |body|
  {
    BigEndian(key, 4) + BigEndian(|body|, 4) + body
  }

  function EncodeEntry(e: Entry): Result<seq<byte>>
    requires Valid(e)
  {
    match EncodeBody(e)
    case Ok(body) => Ok(Frame(Key(e), body))
    case Err(error) => Err(error)
  }

  /** Entries in order; the first entry that cannot be encoded fails the whole payload. */
  function EncodeEntries(es: seq<Entry>): Result<seq<byte>>
    requires AllValid(es)
  {
    if es == [] then Ok([])
    else
      match EncodeEntries(es[..|es| - 1])
      case Err(error) => Err(error)
      case Ok(prefix) =>
        match EncodeEntry(es[|es| - 1])
        case Err(error) => Err(error)
        case Ok(bytes) => Ok(prefix + bytes)
  }

  function EntriesSize(es: seq<Entry>): nat {
    if es == [] then 0 else EntriesSize(es[..|es| - 1]) + HEADER_SIZE + EntrySize(es[|es| - 1])
  }

  const U32_RANGE: nat := 0x1_0000_0000

  /** The size a payload announces: a 32-bit sum, which wraps. */
  function AnnouncedSize(es: seq<Entry>): nat {
    EntriesSize(es) % U32_RANGE
  }

  // ----- decoding -----

  function DecodeTime(body: seq<byte>): (time: int)
    requires |body| == 8
    ensures InDuration(time)
  {
    1000 * DecodeI64(body)
  }

  function DecodeEndpoint(body: seq<byte>): (ep: Endpoint)
    requires |body| == 6
    ensures ep.ip < 0x1_0000_0000 && ep.port < 0x1_0000
  {
    EncodeDecoded(body[..4]);
    EncodeDecoded(body[4..]);
    Ranges();
    Endpoint(FromBigEndian(body[..4]), FromBigEndian(body[4..]))
  }

  /** One entry from its key and body; None is a skipped entry. */
  function DecodeBody(key: nat, body: seq<byte>): (r: Result<Option<Entry>>)
    ensures r.Ok? && r.value.Some? ==> Valid(r.value.value)
    ensures r.Ok? && r.value.None? <==> !Known(key)
  {
    if key == HOST_TIME_KEY then
      if |body| == 8 then Ok(Some(HostTime(DecodeTime(body)))) else Err(SizeMismatch)
    else if key == TIMELINE_KEY then
      if |body| == 24 then Ok(Some(Timeline(body))) else Err(SizeMismatch)
    else if key == SESSION_KEY then
      if |body| == 8 then Ok(Some(SessionMembership(body))) else Err(SizeMismatch)
    else if key == START_STOP_KEY then
      if |body| != 17 then Err(SizeMismatch)
      else if body[0] > 1 then Err(InvalidBool(body[0]))
      else Ok(Some(StartStopState(body[0] == 1, DecodeI64(body[1..9]), DecodeTime(body[9..]))))
    else if key == MEASUREMENT_ENDPOINT_KEY then
      if |body| != 6 then Err(SizeMismatch)
      else
        var ep := DecodeEndpoint(body);
        Ok(Some(MeasurementEndpointV4(if ep.ip != 0 || ep.port != 0 then Some(ep) else None)))
    else if key == AUDIO_ENDPOINT_KEY then
      if |body| != 6 then Err(SizeMismatch)
      else
        var ep := DecodeEndpoint(body);
        Ok(Some(AudioEndpointV4(if ep.ip == 0 || ep.port == 0 then None else Some(ep))))
    else if key == GHOST_TIME_KEY then
      if |body| == 8 then Ok(Some(GhostTime(DecodeTime(body)))) else Err(SizeMismatch)
    else if key == PREV_GHOST_TIME_KEY then
      if |body| == 8 then Ok(Some(PrevGhostTime(DecodeTime(body)))) else Err(SizeMismatch)
    else Ok(None)
  }

  /** Entries accepted before the end of the data or before the error that stopped decoding. */
  datatype Decoded = Decoded(entries: seq<Entry>, error: Option<Error>)

  function HeaderKey(data: seq<byte>): nat
    requires |data| >= HEADER_SIZE
  {
    FromBigEndian(data[..4])
  }

  function EntryEnd(data: seq<byte>): (end: nat)
    requires |data| >= HEADER_SIZE
    ensures end >= HEADER_SIZE
  {
    HEADER_SIZE + FromBigEndian(data[4..8])
  }

  function Push(e: Option<Entry>, rest: Decoded): Decoded {
    if e.Some? then Decoded([e.value] + rest.entries, rest.error) else rest
  }

  function DecodeAll(data: seq<byte>): Decoded
    decreases |data|
  {
    if |data| < HEADER_SIZE then Decoded([], None)
    else if EntryEnd(data) > |data| then Decoded([], Some(TruncatedEntry))
    else
      match DecodeBody(HeaderKey(data), data[HEADER_SIZE..EntryEnd(data)])
      case Err(error) => Decoded([], Some(error))
      case Ok(e) => Push(e, DecodeAll(data[EntryEnd(data)..]))
  }

  // ----- the payload object -----

  class Payload {
    var entries: seq<Entry>

    constructor ()
      ensures entries == []
    {
      entries := [];
    }

    method Size() returns (size: nat)
      ensures size == AnnouncedSize(entries)
    {
      size := 0;
      for i := 0 to |entries|
        invariant size == AnnouncedSize(entries[..i])
      {
        assert entries[..i + 1][..i] == entries[..i];
        size := (size + (HEADER_SIZE + EntrySize(entries[i]))) % U32_RANGE;
      }
      assert entries[..|entries|] == entries;
    }

    method Encode() returns (encoded: Result<seq<byte>>)
      requires AllValid(entries)
      ensures encoded == EncodeEntries(entries)
    {
      var bytes := [];
      for i := 0 to |entries|
        invariant EncodeEntries(entries[..i]) == Ok(bytes)
      {
        assert entries[..i + 1][..i] == entries[..i];
        var entry := EncodeEntry(entries[i]);
        if entry.Err? {
          FirstErrorWins(entries, i + 1);
          return Err(entry.error);
        }
        bytes := bytes + entry.value;
      }
      assert entries[..|entries|] == entries;
      return Ok(bytes);
    }

    /** Appends what it decodes; entries decoded before an error stay appended. */
    method Decode(input: seq<byte>) returns (result: Result<()>)
      modifies this
      ensures entries == old(entries) + DecodeAll(input).entries
      ensures result == if DecodeAll(input).error.Some? then Err(DecodeAll(input).error.value) else Ok(())
    {
      var data := input;
      ghost var whole := DecodeAll(input);
      while |data| >= HEADER_SIZE
        invariant entries + DecodeAll(data).entries == old(entries) + whole.entries
        invariant DecodeAll(data).error == whole.error
        decreases |data|
      {
        var end := EntryEnd(data);
        if end > |data| {
          return Err(TruncatedEntry);
        }
        var body := data[HEADER_SIZE..end];
        match DecodeBody(HeaderKey(data), body) {
          case Err(error) =>
            return Err(error);
          case Ok(entry) =>
            if entry.Some? {
              assert entries + ([entry.value] + DecodeAll(data[end..]).entries)
                  == (entries + [entry.value]) + DecodeAll(data[end..]).entries;
              entries := entries + [entry.value];
            }
        }
        data := data[end..];
      }
      return Ok(());
    }
  }

  lemma {:induction false} FirstErrorWins(es: seq<Entry>, n: nat)
    requires AllValid(es) && n <= |es|
    requires EncodeEntries(es[..n]).Err?
    ensures EncodeEntries(es) == EncodeEntries(es[..n])
    decreases |es|
  {
    if n == |es| {
      assert es[..n] == es;
    } else {
      var front := es[..|es| - 1];
      assert front[..n] == es[..n];
      FirstErrorWins(front, n);
    }
  }
}
