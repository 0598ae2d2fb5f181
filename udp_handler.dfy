/**
 * `UdpMessageHandler` of src/udp_handler.rs. Its endless receive loop is
 * modelled over a finite sequence of receive events; each iteration
 * decompresses the received bytes, decodes them lossily to text, parses the
 * text and, only when all of that succeeds, appends one entry to the store.
 */
module UdpHandler {
  import opened Wrappers
  import opened Utf8
  import opened Gelf
  import opened Compression
  import opened Storage

  /** `UdpHandlerConfig`: the size of the receive buffer. */
  datatype UdpHandlerConfig = UdpHandlerConfig(bufferSize: nat)

  /** `UdpHandlerConfig::default`. */
  const DefaultConfig: UdpHandlerConfig := UdpHandlerConfig(8192)

  /** Bytes of the preview logged for every decoded message. */
  const MessagePreviewLength: nat := 200

  /**
   * One completion of `recv_from`: a datagram (with the clock reading that
   * its entry gets if it is stored), or a receive error.
   */
  datatype Event = Datagram(payload: seq<Byte>, clock: F64) | ReceiveError(error: IoError)

  /** What one loop iteration does with one event. */
  datatype Outcome =
    | ReceiveFailed(receiveError: IoError)
    | DecompressFailed(decompressError: IoError)
    | ParseFailed(parseError: JsonError)
    | Accepted(gelfMessage: GelfMessage, rawMessage: Str)

  /**
   * `recv_from` into `buf`: the datagram's first `buf.Length` bytes are
   * copied to the front of the buffer (the rest of a longer datagram is
   * discarded) and their count is returned.
   */
  method RecvFrom(buf: array<Byte>, payload: seq<Byte>) returns (len: nat)
    modifies buf
    ensures len == Min(|payload|, buf.Length)
    ensures buf[..len] == payload[..len]
    ensures buf[len..] == old(buf[len..])
  {
    len := Min(|payload|, buf.Length);
    forall i | 0 <= i < len {
      buf[i] := payload[i];
    }
  }

  class UdpMessageHandler {
    const store: InMemoryMessageStore
    const compressionManager: CompressionManager
    const parser: JsonGelfParser
    const config: UdpHandlerConfig
    /** `String::from_utf8_lossy`, left abstract. */
    const fromUtf8Lossy: seq<Byte> -> Str

    /** `UdpMessageHandler::new`: the default configuration. */
    constructor New(store: InMemoryMessageStore, flate: Flate2, serde: Str -> Result<JsonValue, JsonError>,
                    fromUtf8Lossy: seq<Byte> -> Str)
      ensures this.store == store && config == DefaultConfig
      ensures compressionManager == CompressionManager.New(flate) && parser == JsonGelfParser(serde)
      ensures this.fromUtf8Lossy == fromUtf8Lossy
    {
      this.store := store;
      compressionManager := CompressionManager.New(flate);
      parser := JsonGelfParser(serde);
      config := DefaultConfig;
      this.fromUtf8Lossy := fromUtf8Lossy;
    }

    /** `UdpMessageHandler::with_config`. */
    constructor WithConfig(store: InMemoryMessageStore, config: UdpHandlerConfig, flate: Flate2,
                           serde: Str -> Result<JsonValue, JsonError>, fromUtf8Lossy: seq<Byte> -> Str)
      ensures this.store == store && this.config == config
      ensures compressionManager == CompressionManager.New(flate) && parser == JsonGelfParser(serde)
      ensures this.fromUtf8Lossy == fromUtf8Lossy
    {
      this.store := store;
      compressionManager := CompressionManager.New(flate);
      parser := JsonGelfParser(serde);
      this.config := config;
      this.fromUtf8Lossy := fromUtf8Lossy;
    }

    /** Decompress, decode lossily, parse. */
    function Ingest(rawData: seq<Byte>): Outcome {
      match FirstMatch(compressionManager.decompressors, compressionManager.flate, rawData)
      case Failure(e) => DecompressFailed(e)
      case Success(decompressed) =>
        var messageStr := fromUtf8Lossy(decompressed);
        match parser.FromStr(messageStr)
        case Failure(e) => ParseFailed(e)
        case Success(gelfMessage) => Accepted(gelfMessage, messageStr)
    }

    /** One iteration: only the bytes that fit the buffer are looked at. */
    function Step(ev: Event): Outcome {
      match ev
      case ReceiveError(e) => ReceiveFailed(e)
      case Datagram(payload, _) => Ingest(payload[..Min(|payload|, config.bufferSize)])
    }

    /** The entry an event adds to the store: one for an accepted datagram, none otherwise. */
    function EntryOf(ev: Event): seq<StoredMessage> {
      if ev.Datagram? && Step(ev).Accepted? then
        [NewStoredMessage(Step(ev).gelfMessage, Step(ev).rawMessage, ev.clock)]
      else []
    }

    /** The entries a run over `events` appends, in arrival order. */
    function Appended(events: seq<Event>): seq<StoredMessage>
      decreases |events|
    {
      if events == [] then [] else EntryOf(events[0]) + Appended(events[1..])
    }

    /**
     * `run`, over a finite sequence of events: every receive error,
     * decompression error and parse error is skipped, and every other
     * datagram is appended to the store, in order.
     */
    method Run(events: seq<Event>)
      requires store.Valid()
      modifies store
      ensures store.Valid()
      ensures store.history == old(store.history) + Appended(events)
    {
      var buf := new Byte[config.bufferSize];
      for k := 0 to |events|
        invariant store.Valid()
        invariant store.history == old(store.history) + Appended(events[..k])
      {
        HandleEvent(buf, events[k]);
        AppendedSnoc(this, events, k);
      }
      assert events[..|events|] == events;
    }

    /**
     * The body of the loop of `run`, for one event, with `buf` the receive
     * buffer; returning early is the loop's `continue`.
     */
    method HandleEvent(buf: array<Byte>, ev: Event)
      requires store.Valid() && buf.Length == config.bufferSize
      modifies store, buf
      ensures store.Valid()
      ensures store.history == old(store.history) + EntryOf(ev)
    {
      match ev
      case ReceiveError(e) =>
      case Datagram(payload, clock) =>
        var len := RecvFrom(buf, payload);
        var rawData := buf[..len];
        var decompressed := compressionManager.Decompress(rawData);
        if decompressed.Failure? {
          return;
        }
        var messageStr := fromUtf8Lossy(decompressed.value);
        var preview := GetSafePreview(messageStr, MessagePreviewLength);
        var parsed;
        ghost var logged;
        parsed, logged := parser.Parse(messageStr);
        if parsed.Success? {
          store.AddMessage(parsed.value, messageStr, clock);
        }
    }

    /**
     * `get_safe_preview`: `text` when it fits in `maxLen` bytes, otherwise
     * its prefix up to the last char boundary at or before `maxLen`.
     */
    method GetSafePreview(text: Str, maxLen: nat) returns (p: Str)
      ensures |text| <= maxLen ==> p == text
      ensures |p| <= maxLen && p == text[..|p|]
      ensures IsCharBoundary(text, |p|)
      ensures forall j :: |p| < j <= maxLen ==> !IsCharBoundary(text, j)
      ensures p == SafePreview(text, maxLen)
    {
      if |text| <= maxLen {
        p := text;
      } else {
        var end: nat := maxLen;
        while end > 0 && !IsCharBoundary(text, end)
          invariant end <= maxLen
          invariant forall j :: end < j <= maxLen ==> !IsCharBoundary(text, j)
        {
          end := end - 1;
        }
        // slicing a `str` off a char boundary would panic
        assert IsCharBoundary(text, end);
        p := text[..end];
      }
    }
  }

  // ----- Properties of the ingestion loop -----

  /** A run over `a` then `b` appends what a run over `a` appends, then what one over `b` does. */
  lemma {:induction false} AppendedConcat(h: UdpMessageHandler, a: seq<Event>, b: seq<Event>)
    ensures h.Appended(a + b) == h.Appended(a) + h.Appended(b)
    decreases |a|
  {
    if a == [] {
      assert a + b == b;
    } else {
      var ab := a + b;
      assert ab[0] == a[0] && ab[1..] == a[1..] + b;
      AppendedConcat(h, a[1..], b);
      calc {
        h.Appended(ab);
        h.EntryOf(a[0]) + h.Appended(a[1..] + b);
        h.EntryOf(a[0]) + (h.Appended(a[1..]) + h.Appended(b));
        (h.EntryOf(a[0]) + h.Appended(a[1..])) + h.Appended(b);
      }
    }
  }

  /** Processing one more event appends that event's entry. */
  lemma AppendedSnoc(h: UdpMessageHandler, events: seq<Event>, k: nat)
    requires k < |events|
    ensures h.Appended(events[..k + 1]) == h.Appended(events[..k]) + h.EntryOf(events[k])
  {
    assert events[..k + 1] == events[..k] + [events[k]];
    AppendedConcat(h, events[..k], [events[k]]);
    assert h.Appended([events[k]]) == h.EntryOf(events[k]) + h.Appended([]);
  }

  /** A run never appends more entries than it received events. */
  lemma {:induction false} AppendedAtMostOnePerEvent(h: UdpMessageHandler, events: seq<Event>)
    ensures |h.Appended(events)| <= |events|
    decreases |events|
  {
    if events != [] {
      AppendedAtMostOnePerEvent(h, events[1..]);
    }
  }

  /** A run in which no event is accepted leaves the store's history as it was. */
  lemma {:induction false} AllDroppedAppendsNothing(h: UdpMessageHandler, events: seq<Event>)
    requires forall i :: 0 <= i < |events| ==> !h.Step(events[i]).Accepted?
    ensures h.Appended(events) == []
    decreases |events|
  {
    if events != [] {
      assert !h.Step(events[0]).Accepted?;
      AllDroppedAppendsNothing(h, events[1..]);
    }
  }

  /** A receive error appends nothing. */
  lemma ReceiveErrorAppendsNothing(h: UdpMessageHandler, e: IoError)
    ensures h.Appended([ReceiveError(e)]) == []
  {
  }

  /** A datagram whose decompression fails appends nothing. */
  lemma DecompressErrorAppendsNothing(h: UdpMessageHandler, payload: seq<Byte>, clock: F64)
    requires FirstMatch(h.compressionManager.decompressors, h.compressionManager.flate,
      payload[..Min(|payload|, h.config.bufferSize)]).Failure?
    ensures h.Appended([Datagram(payload, clock)]) == []
  {
  }

  /** A datagram that decompresses but does not parse appends nothing. */
  lemma ParseErrorAppendsNothing(h: UdpMessageHandler, payload: seq<Byte>, clock: F64, decompressed: seq<Byte>)
    requires FirstMatch(h.compressionManager.decompressors, h.compressionManager.flate,
      payload[..Min(|payload|, h.config.bufferSize)]) == Success(decompressed)
    requires h.parser.FromStr(h.fromUtf8Lossy(decompressed)).Failure?
    ensures h.Appended([Datagram(payload, clock)]) == []
  {
  }

  /**
   * A datagram that decompresses and parses appends exactly one entry: the
   * parsed record, with the lossily decoded text as its raw message.
   */
  lemma SuccessAppendsOne(h: UdpMessageHandler, payload: seq<Byte>, clock: F64, decompressed: seq<Byte>,
                          gelfMessage: GelfMessage)
    requires FirstMatch(h.compressionManager.decompressors, h.compressionManager.flate,
      payload[..Min(|payload|, h.config.bufferSize)]) == Success(decompressed)
    requires h.parser.FromStr(h.fromUtf8Lossy(decompressed)) == Success(gelfMessage)
    ensures h.Appended([Datagram(payload, clock)]) ==
      [StoredMessage(gelfMessage, clock, h.fromUtf8Lossy(decompressed))]
  {
  }

  /** Bytes of a datagram beyond the buffer size never influence the outcome. */
  lemma OnlyBufferedBytesMatter(h: UdpMessageHandler, payload: seq<Byte>, extra: seq<Byte>, clock: F64)
    requires |payload| >= h.config.bufferSize
    ensures h.Step(Datagram(payload + extra, clock)) == h.Step(Datagram(payload, clock))
  {
    assert (payload + extra)[..h.config.bufferSize] == payload[..h.config.bufferSize];
  }

  /** A malformed datagram followed by a valid one appends exactly the valid one. */
  lemma MalformedThenValid(h: UdpMessageHandler, bad: Event, good: Event)
    requires !h.Step(bad).Accepted?
    requires good.Datagram? && h.Step(good).Accepted?
    ensures h.Appended([bad, good]) ==
      [StoredMessage(h.Step(good).gelfMessage, good.clock, h.Step(good).rawMessage)]
  {
    assert [bad, good][1..] == [good];
    assert [good][1..] == [];
    assert h.EntryOf(bad) == [];
    assert h.Appended([good]) == h.EntryOf(good);
  }

  /**
   * Gzip-compressing a text that neither detector claims, as no JSON text
   * is, changes nothing about what is stored: the compressed datagram is
   * stored as the uncompressed one would be.
   */
  lemma GzipRoundTrip(h: UdpMessageHandler, flate: Flate2, compressed: seq<Byte>, json: seq<Byte>, clock: F64)
    requires h.compressionManager == CompressionManager.New(flate)
    requires |compressed| <= h.config.bufferSize && |json| <= h.config.bufferSize
    requires Gzip.CanHandle(compressed) && flate.gzDecode(compressed) == Success(json)
    requires !Gzip.CanHandle(json) && !Zlib.CanHandle(json)
    ensures h.Appended([Datagram(compressed, clock)]) == h.Appended([Datagram(json, clock)])
  {
    assert compressed[..Min(|compressed|, h.config.bufferSize)] == compressed;
    assert json[..Min(|json|, h.config.bufferSize)] == json;
    ManagerUsesGzip(flate, compressed);
    ManagerPassesThrough(flate, json);
  }

  /** The same for zlib. */
  lemma ZlibRoundTrip(h: UdpMessageHandler, flate: Flate2, compressed: seq<Byte>, json: seq<Byte>, clock: F64)
    requires h.compressionManager == CompressionManager.New(flate)
    requires |compressed| <= h.config.bufferSize && |json| <= h.config.bufferSize
    requires Zlib.CanHandle(compressed) && flate.zlibDecode(compressed) == Success(json)
    requires !Gzip.CanHandle(json) && !Zlib.CanHandle(json)
    ensures h.Appended([Datagram(compressed, clock)]) == h.Appended([Datagram(json, clock)])
  {
    assert compressed[..Min(|compressed|, h.config.bufferSize)] == compressed;
    assert json[..Min(|json|, h.config.bufferSize)] == json;
    ManagerUsesZlib(flate, compressed);
    ManagerPassesThrough(flate, json);
  }

  /**
   * When the lossy decoding of a payload is well-formed UTF-8, as
   * `String::from_utf8_lossy` guarantees, both previews logged for it (the
   * handler's 200-byte one and the parser's 100-byte one) are well formed.
   */
  lemma LoggedPreviewsWellFormed(h: UdpMessageHandler, decompressed: seq<Byte>)
    requires WellFormed(h.fromUtf8Lossy(decompressed))
    ensures WellFormed(SafePreview(h.fromUtf8Lossy(decompressed), MessagePreviewLength))
    ensures WellFormed(SafePreview(h.fromUtf8Lossy(decompressed), ParseErrorPreviewLength))
  {
    PreviewWellFormed(h.fromUtf8Lossy(decompressed), MessagePreviewLength);
    PreviewWellFormed(h.fromUtf8Lossy(decompressed), ParseErrorPreviewLength);
  }
}
