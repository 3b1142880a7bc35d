/** Round trips, skipping and normal forms of the payload codec. */
module PayloadLaws {
  import opened Wrappers
  import opened Rounding
  import opened Wire
  import opened Payload

  // ----- framing -----

  /** The data is a run of complete entries, whatever their keys and bodies. */
  predicate Framed(data: seq<byte>)
    decreases |data|
  {
    data == [] || (|data| >= HEADER_SIZE && EntryEnd(data) <= |data| && Framed(data[EntryEnd(data)..]))
  }

  function Join(a: Decoded, b: Decoded): Decoded {
    if a.error.Some? then a else Decoded(a.entries + b.entries, b.error)
  }

  /** Decoding distributes over concatenation after complete entries. */
  lemma {:induction false} DecodeConcat(a: seq<byte>, b: seq<byte>)
    requires Framed(a)
    ensures DecodeAll(a + b) == Join(DecodeAll(a), DecodeAll(b))
    decreases |a|
  {
    if a == [] {
      assert a + b == b;
    } else {
      var end := EntryEnd(a);
      assert (a + b)[..4] == a[..4] && (a + b)[4..8] == a[4..8];
      assert (a + b)[HEADER_SIZE..end] == a[HEADER_SIZE..end];
      assert (a + b)[end..] == a[end..] + b;
      DecodeConcat(a[end..], b);
      var rest := DecodeAll(a[end..]);
      match DecodeBody(HeaderKey(a), a[HEADER_SIZE..end]) {
        case Err(_) =>
        case Ok(e) =>
          if e.Some? {
            var more := DecodeAll(b).entries;
            assert [e.value] + (rest.entries + more) == ([e.value] + rest.entries) + more;
          }
      }
    }
  }

  lemma {:induction false} FramedConcat(a: seq<byte>, b: seq<byte>)
    requires Framed(a) && Framed(b)
    ensures Framed(a + b)
    decreases |a|
  {
    if a == [] {
      assert a + b == b;
    } else {
      var end := EntryEnd(a);
      assert (a + b)[4..8] == a[4..8];
      assert (a + b)[end..] == a[end..] + b;
      FramedConcat(a[end..], b);
    }
  }

  lemma FrameParses(key: nat, body: seq<byte>)
    requires key < 0x1_0000_0000 && |body| < 0x1_0000_0000
    ensures Framed(Frame(key, body))
    ensures DecodeAll(Frame(key, body))
         == match DecodeBody(key, body)
            case Err(error) => Decoded([], Some(error))
            case Ok(e) => Push(e, Decoded([], None))
  {
    var data := Frame(key, body);
    Ranges();
    DecodeEncoded(key, 4);
    DecodeEncoded(|body|, 4);
    assert data[..4] == BigEndian(key, 4);
    assert data[4..8] == BigEndian(|body|, 4);
    assert data[HEADER_SIZE..EntryEnd(data)] == body;
    assert data[EntryEnd(data)..] == [];
  }

  // ----- normal forms -----

  predicate Encodable(e: Entry) {
    match e
    case HostTime(t) => InI64(Micros(t))
    case GhostTime(t) => InI64(Micros(t))
    case PrevGhostTime(t) => InI64(Micros(t))
    case _ => true
  }

  function WholeMicros(time: int): int {
    1000 * Clamp(Micros(time), I64_MIN, I64_MAX)
  }

  /** What a peer reads back. */
  function Normalize(e: Entry): Entry {
    match e
    case HostTime(t) => HostTime(WholeMicros(t))
    case GhostTime(t) => GhostTime(WholeMicros(t))
    case PrevGhostTime(t) => PrevGhostTime(WholeMicros(t))
    case StartStopState(p, b, t) => StartStopState(p, b, WholeMicros(t))
    case MeasurementEndpointV4(ep) => MeasurementEndpointV4(if ep == Some(Endpoint(0, 0)) then None else ep)
    case AudioEndpointV4(ep) =>
      AudioEndpointV4(if ep.Some? && (ep.value.ip == 0 || ep.value.port == 0) then None else ep)
    case _ => e
  }

  function NormalizeAll(es: seq<Entry>): (r: seq<Entry>)
    ensures |r| == |es|
    ensures forall i :: 0 <= i < |es| ==> r[i] == Normalize(es[i])
  {
    seq(|es|, i requires 0 <= i < |es| => Normalize(es[i]))
  }

  predicate NormalTime(time: int) {
    time % 1000 == 0 && I64_MIN * 1000 <= time <= I64_MAX * 1000
  }

  /** Whole microseconds that fit the wire, and endpoints that are not spelled as "none". */
  predicate Normal(e: Entry) {
    match e
    case HostTime(t) => NormalTime(t)
    case GhostTime(t) => NormalTime(t)
    case PrevGhostTime(t) => NormalTime(t)
    case StartStopState(_, _, t) => NormalTime(t)
    case MeasurementEndpointV4(ep) => ep.Some? ==> ep.value.ip != 0 || ep.value.port != 0
    case AudioEndpointV4(ep) => ep.Some? ==> ep.value.ip != 0 && ep.value.port != 0
    case _ => true
  }

  lemma NormalIffFixed(e: Entry)
    ensures Normal(e) <==> Normalize(e) == e
    ensures Normal(e) ==> Encodable(e)
  {
  }

  // ----- round trips -----

  lemma TimeRoundTrip(time: int)
    requires InDuration(time)
    ensures var micros := Clamp(Micros(time), I64_MIN, I64_MAX); DecodeTime(EncodeI64(micros)) == WholeMicros(time)
  {
    I64RoundTrip(Clamp(Micros(time), I64_MIN, I64_MAX));
  }

  lemma EndpointRoundTrip(endpoint: Option<Endpoint>)
    requires ValidEndpoint(endpoint)
    ensures DecodeEndpoint(EncodeEndpoint(endpoint)) == if endpoint.Some? then endpoint.value else Endpoint(0, 0)
  {
    var ep := if endpoint.Some? then endpoint.value else Endpoint(0, 0);
    var bytes := EncodeEndpoint(endpoint);
    Ranges();
    assert bytes[..4] == BigEndian(ep.ip, 4) && bytes[4..] == BigEndian(ep.port, 2);
    DecodeEncoded(ep.ip, 4);
    DecodeEncoded(ep.port, 2);
  }

  lemma StartStopRoundTrip(isPlaying: bool, beats: int, time: int)
    requires InI64(beats) && InDuration(time)
    ensures var e := StartStopState(isPlaying, beats, time);
            && |EncodeBody(e).value| == 17
            && DecodeBody(START_STOP_KEY, EncodeBody(e).value) == Ok(Some(Normalize(e)))
  {
    var body := EncodeBody(StartStopState(isPlaying, beats, time)).value;
    TimeRoundTrip(time);
    I64RoundTrip(beats);
    assert body[1..9] == EncodeI64(beats);
    assert body[9..] == EncodeI64(Clamp(Micros(time), I64_MIN, I64_MAX));
  }

  lemma BodyRoundTrip(e: Entry)
    requires Valid(e)
    ensures EncodeBody(e).Ok? <==> Encodable(e)
    ensures EncodeBody(e).Err? ==> EncodeBody(e).error == TimeOutOfRange
    ensures EncodeBody(e).Ok? ==>
              |EncodeBody(e).value| == EntrySize(e) &&
              DecodeBody(Key(e), EncodeBody(e).value) == Ok(Some(Normalize(e)))
  {
    hide DecodeTime, EncodeI64, DecodeI64, DecodeEndpoint, EncodeEndpoint;
    match e {
      case HostTime(t) => TimeRoundTrip(t);
      case GhostTime(t) => TimeRoundTrip(t);
      case PrevGhostTime(t) => TimeRoundTrip(t);
      case StartStopState(p, b, t) => StartStopRoundTrip(p, b, t);
      case MeasurementEndpointV4(ep) => EndpointRoundTrip(ep);
      case AudioEndpointV4(ep) => EndpointRoundTrip(ep);
      case _ =>
    }
  }

  lemma EntryRoundTrip(e: Entry)
    requires Valid(e) && Encodable(e)
    ensures EncodeEntry(e).Ok?
    ensures |EncodeEntry(e).value| == HEADER_SIZE + EntrySize(e)
    ensures Framed(EncodeEntry(e).value)
    ensures DecodeAll(EncodeEntry(e).value) == Decoded([Normalize(e)], None)
  {
    BodyRoundTrip(e);
    FrameParses(Key(e), EncodeBody(e).value);
  }

  ghost predicate AllEncodable(es: seq<Entry>) {
    forall i :: 0 <= i < |es| ==> Encodable(es[i])
  }

  /** Encoding succeeds exactly when every time fits; then its length is the announced size. */
  lemma {:induction false} EncodeSucceeds(es: seq<Entry>)
    requires AllValid(es)
    ensures EncodeEntries(es).Ok? <==> AllEncodable(es)
    ensures EncodeEntries(es).Err? ==> EncodeEntries(es).error == TimeOutOfRange
    ensures EncodeEntries(es).Ok? ==> |EncodeEntries(es).value| == EntriesSize(es)
  {
    if es != [] {
      var front, last := es[..|es| - 1], es[|es| - 1];
      assert es == front + [last];
      EncodeSucceeds(front);
      BodyRoundTrip(last);
    }
  }

  /** Two runs of whole entries without errors. */
  lemma JoinWhole(a: seq<byte>, b: seq<byte>, es: seq<Entry>, fs: seq<Entry>)
    requires Framed(a) && DecodeAll(a) == Decoded(es, None)
    requires Framed(b) && DecodeAll(b) == Decoded(fs, None)
    ensures Framed(a + b) && DecodeAll(a + b) == Decoded(es + fs, None)
  {
    hide DecodeAll, Framed;
    DecodeConcat(a, b);
    FramedConcat(a, b);
  }

  lemma NothingToDecode()
    ensures Framed([]) && DecodeAll([]) == Decoded([], None)
  {}

  /** A peer decodes exactly the normalised entries. */
  lemma {:induction false} PayloadRoundTrip(es: seq<Entry>)
    requires AllValid(es) && AllEncodable(es)
    ensures EncodeEntries(es).Ok?
    ensures Framed(EncodeEntries(es).value)
    ensures DecodeAll(EncodeEntries(es).value) == Decoded(NormalizeAll(es), None)
  {
    hide EncodeEntry, Normalize, Valid, Encodable, EntriesSize, NormalizeAll, DecodeAll, Framed;
    if es == [] {
      assert NormalizeAll(es) == [];
      NothingToDecode();
    } else {
      var front, last := es[..|es| - 1], es[|es| - 1];
      PayloadRoundTrip(front);
      EntryRoundTrip(last);
      JoinWhole(EncodeEntries(front).value, EncodeEntry(last).value, NormalizeAll(front), [Normalize(last)]);
      assert NormalizeAll(es) == NormalizeAll(front) + [Normalize(last)];
    }
  }

  ghost predicate AllNormal(es: seq<Entry>) {
    forall i :: 0 <= i < |es| ==> Normal(es[i])
  }

  /** The round trip is the identity exactly on entries in normal form. */
  lemma IdentityExactlyOnNormal(es: seq<Entry>)
    requires AllValid(es) && AllEncodable(es)
    ensures EncodeEntries(es).Ok?
    ensures DecodeAll(EncodeEntries(es).value) == Decoded(es, None) <==> AllNormal(es)
  {
    PayloadRoundTrip(es);
    forall i | 0 <= i < |es| ensures Normal(es[i]) <==> NormalizeAll(es)[i] == es[i] {
      NormalIffFixed(es[i]);
    }
    if AllNormal(es) {
      assert NormalizeAll(es) == es;
    }
  }

  /** Whatever bytes arrive, the entries read from them are valid and in normal form. */
  lemma {:induction false} DecodedIsNormal(data: seq<byte>)
    ensures AllValid(DecodeAll(data).entries) && AllNormal(DecodeAll(data).entries)
    decreases |data|
  {
    hide DecodeBody, Normal;
    if |data| >= HEADER_SIZE && EntryEnd(data) <= |data| {
      DecodedBodyIsNormal(HeaderKey(data), data[HEADER_SIZE..EntryEnd(data)]);
      DecodedIsNormal(data[EntryEnd(data)..]);
    }
  }

  lemma DecodedBodyIsNormal(key: nat, body: seq<byte>)
    ensures DecodeBody(key, body).Ok? && DecodeBody(key, body).value.Some? ==>
              Normal(DecodeBody(key, body).value.value)
  {
    if |body| == 8 {
      DecodedTimeIsNormal(body);
    } else if |body| == 17 {
      DecodedTimeIsNormal(body[9..]);
    }
    hide NormalTime, DecodeTime, DecodeI64, DecodeEndpoint;
  }

  lemma DecodedTimeIsNormal(body: seq<byte>)
    requires |body| == 8
    ensures NormalTime(DecodeTime(body))
  {
    hide DecodeI64;
  }

  /** So re-encoding what was read and reading it again changes nothing. */
  lemma ReencodeIsStable(data: seq<byte>)
    ensures AllValid(DecodeAll(data).entries)
    ensures EncodeEntries(DecodeAll(data).entries).Ok?
    ensures DecodeAll(EncodeEntries(DecodeAll(data).entries).value) == Decoded(DecodeAll(data).entries, None)
  {
    DecodedIsNormal(data);
    var es := DecodeAll(data).entries;
    forall i | 0 <= i < |es| ensures Encodable(es[i]) {
      NormalIffFixed(es[i]);
    }
    IdentityExactlyOnNormal(es);
  }

  // ----- skipped entries and trailing bytes -----

  datatype Piece = Item(entry: Entry) | Skipped(key: nat, body: seq<byte>)

  predicate Sendable(p: Piece) {
    match p
    case Item(e) => Valid(e) && Encodable(e)
    case Skipped(key, body) => key < 0x1_0000_0000 && !Known(key) && |body| < 0x1_0000_0000
  }

  function PieceBytes(p: Piece): seq<byte>
    requires Sendable(p)
  {
    match p
    case Item(e) => BodyRoundTrip(e); EncodeEntry(e).value
    case Skipped(key, body) => Frame(key, body)
  }

  function PiecesBytes(ps: seq<Piece>): seq<byte>
    requires forall p :: p in ps ==> Sendable(p)
  {
    if ps == [] then [] else PieceBytes(ps[0]) + PiecesBytes(ps[1..])
  }

  function Items(ps: seq<Piece>): seq<Entry> {
    if ps == [] then []
    else if ps[0].Item? then [Normalize(ps[0].entry)] + Items(ps[1..])
    else Items(ps[1..])
  }

  lemma PieceDecodes(p: Piece)
    requires Sendable(p)
    ensures Framed(PieceBytes(p))
    ensures DecodeAll(PieceBytes(p)) == Decoded(if p.Item? then [Normalize(p.entry)] else [], None)
  {
    match p {
      case Item(e) => EntryRoundTrip(e);
      case Skipped(key, body) => FrameParses(key, body);
    }
  }

  /** Unknown entries anywhere, and too few bytes for another header at the end, are invisible. */
  lemma {:induction false} InterleavedDecode(ps: seq<Piece>, tail: seq<byte>)
    requires forall p :: p in ps ==> Sendable(p)
    requires |tail| < HEADER_SIZE
    ensures DecodeAll(PiecesBytes(ps) + tail) == Decoded(Items(ps), None)
  {
    hide PieceBytes, Sendable, Framed, Normalize;
    if ps == [] {
      assert PiecesBytes(ps) + tail == tail;
    } else {
      hide DecodeAll;
      var head, rest := PieceBytes(ps[0]), PiecesBytes(ps[1..]);
      PieceDecodes(ps[0]);
      InterleavedDecode(ps[1..], tail);
      assert (head + rest) + tail == head + (rest + tail);
      DecodeConcat(head, rest + tail);
    }
  }
}
