# light-gelf-collector-rs: a Dafny model of the ingestion core

This project models the sequential core of a GELF log collector. UDP
datagrams arrive, gzip or zlib payloads are detected by their magic bytes and
decompressed, and the text is parsed as a GELF JSON record. Accepted records
go into a bounded in-memory FIFO store. The store evicts its oldest entries
beyond its capacity and publishes each new entry to live subscribers. Queries
return the newest entries first.

Modules, one per source file (plus two helpers):

- `Wrappers` (wrappers.dfy): `Option`, `Result`, `Min`.
- `Utf8` (utf8.dfy): a Rust `String` as its UTF-8 bytes.
  - `str::is_char_boundary`.
  - The safe-preview truncation used by both log previews.
  - A structural notion of well-formed UTF-8. Cutting a string at a char
    boundary keeps it well formed.
- `Gelf` (src/gelf.rs):
  - The `GelfMessage`, `StoredMessage` and `MessageResponse` records.
  - `StoredMessage::new` and `to_response`.
  - `JsonGelfParser::parse`, with its preview loop.
  - The projection that serde's derived `Deserialize` performs from a
    decoded JSON object. Every named field is optional, and every other key
    is flattened into `additionalFields`.
- `Compression` (src/compression.rs):
  - The gzip and zlib detectors.
  - `CompressionManager` with its fixed detector order.
  - `decompress`, a first-match `for` loop.
- `Storage` (src/storage.rs): the class `InMemoryMessageStore`.
  - A `seq` field stands for the `VecDeque`.
  - `AddMessage` appends, then evicts in a `while` loop, then publishes.
  - Snapshots and stats are functions that read the store.
  - The ghost field `history` records every append. The ghost field
    `published` logs the responses handed to the broadcaster.
- `UdpHandler` (src/udp_handler.rs): the class `UdpMessageHandler`.
  - `Run` goes over a finite sequence of receive events with a fresh receive
    buffer. `HandleEvent` is one loop iteration.
  - `GetSafePreview`.
  - Spec functions `Step` and `Appended` say what each event contributes
    to the store.

Abstract parameters. These foreign calls are function-typed values whose
behaviour is not modelled:

- flate2's gzip and zlib readers: `Compression.Flate2`.
- serde_json's text decoder: the field `serde` of `Gelf.JsonGelfParser`.
- `String::from_utf8_lossy`: the field `fromUtf8Lossy` of the handler.

Inputs in place of I/O:

- The socket becomes a sequence of `UdpHandler.Event`s.
- The wall clock becomes the value `now`/`clock`. Each datagram event
  carries the reading used for its `received_at`.

Notes on the code's behaviour that the model keeps:

- Receive errors are logged and the loop goes on; no error ends it
  (src/udp_handler.rs:129-132).
- Both detectors require more than 2 bytes, so an input of exactly 2 bytes
  is never detected (src/compression.rs:35, src/compression.rs:64).
- The zlib detector accepts only FLG `9c`, `da` and `01`
  (src/compression.rs:65). The header `78 5e`, which section 2.2 of RFC 1950
  allows (zlib compression levels 2 to 5), is not claimed, so such a
  payload passes through compressed.
  `Compression.ZlibLevelTwoToFiveNotDetected` shows this.

## Model

| member | source | states |
|---|---|---|
| `Utf8.LastBoundaryAtMost` | src/gelf.rs:67-72 | the index the decrementing loop stops at is a char boundary, at most the start, and no larger index up to the start is a boundary; 0 is always one, so the loop ends |
| `Utf8.SafePreview` | src/udp_handler.rs:137-148 | a string that fits is returned whole; otherwise the result is the prefix ending at the largest char boundary at or below the limit |
| `Utf8.BoundaryPrefixWellFormed` | src/udp_handler.rs:141-146 | cutting well-formed UTF-8 at a char boundary leaves well-formed UTF-8, which is why the truncation is safe |
| `Utf8.PreviewWellFormed` | src/udp_handler.rs:137-148 | every safe preview of well-formed UTF-8 is well formed |
| `Gelf.UnsignedField` | src/gelf.rs:13-15 | a `level` or `line` field is accepted exactly when absent, `null` or a non-negative integer below 2^8 or 2^32, and then holds that integer; an out-of-range or negative integer is an invalid value, a float or non-number an invalid type |
| `Gelf.FromJson` | src/gelf.rs:6-19 | the derived `Deserialize` accepts a value exactly when it is an object whose nine named fields are each absent, `null` or of their Rust type; the error of a rejected object is located at one of the named fields, that of a non-object at the value itself |
| `Gelf.JsonGelfParser.Parse` | src/gelf.rs:46-79 | returns the decoder's result unchanged, success or error; on error the logged preview is the whole text if at most 100 bytes, else its prefix up to the last char boundary at or below 100 |
| `Gelf.ParseAcceptsExactly` | src/gelf.rs:46-58 | `parse` succeeds exactly when the decoder reads the text as an object whose named fields all have accepted types; when the decoder reads an object but `parse` fails, the error is a type or range error located at a named field, not a syntax error |
| `Gelf.AcceptedFieldsDecoded` | src/gelf.rs:7-16 | in every accepted object each of the nine named fields is `None` exactly when its key is absent or `null`, and otherwise holds the object's string, number or integer |
| `Gelf.EmptyObjectAccepted` | src/gelf.rs:7-19 | `{}` is a valid record with every named field absent and no additional fields |
| `Gelf.NonObjectRejected` | src/gelf.rs:5-19 | a JSON value that is not an object is a parse error |
| `Gelf.OmittingKeyKeepsSuccess` | src/gelf.rs:8-16 | removing any key from an accepted object leaves it accepted: no named field is required |
| `Gelf.UnknownKeysPreserved` | src/gelf.rs:17-18 | the additional fields are exactly the object's non-named keys, with their values unchanged |
| `Gelf.NamedStringFieldsDecoded` | src/gelf.rs:8-10 | a string under `version`, `host` or `short_message` becomes that field's value |
| `Gelf.CustomFieldExample` | src/gelf.rs:7-19 | `{"version":"1.1","host":"h","short_message":"m","_custom":"x"}` gives those three fields and additional fields `{_custom: "x"}` |
| `Gelf.LevelNotValidated` | src/gelf.rs:13 | any level that fits a `u8` is accepted as is, even one outside 0 to 7 |
| `Gelf.LevelOutOfRangeRejected` | src/gelf.rs:13 | a level of 256 or more is an invalid-value error |
| `Gelf.StoredMessage.ToResponse` | src/gelf.rs:96-101 | the response is the record with its reception time; `Gelf.ResponseDropsRaw` states that it copies both and ignores the raw text |
| `Gelf.NewStoredMessage` | src/gelf.rs:83-94 | the stored entry built from a record, its raw text and a clock reading; `Gelf.NewKeepsInputs` states that record and text are kept and the time is the reading |
| `Gelf.NewKeepsInputs` | src/gelf.rs:83-94 | `StoredMessage::new` keeps the record and the raw text unchanged; only the reception time comes from the clock |
| `Gelf.ResponseDropsRaw` | src/gelf.rs:96-101 | `to_response` copies the record and the time, and entries that differ only in raw text have equal responses |
| `Compression.Decompressor.CanHandle` | src/compression.rs:34-65 | the two `can_handle` tests; `Compression.DetectorsExclusive`, `Compression.ShortInputNeverDetected` and `Compression.ZlibDetectionSound` state that they never both claim an input, never claim 2 bytes or fewer, and that zlib claims only valid RFC 1950 headers |
| `Compression.CompressionManager.New` | src/compression.rs:74-81 | the manager with gzip tried before zlib; `Compression.ManagerUsesGzip`, `Compression.ManagerUsesZlib` and `Compression.ManagerPassesThrough` state its result on each kind of input |
| `Compression.FirstMatchPicksFirst` | src/compression.rs:84-92 | when detector i claims the input and none before it does, the result is detector i's, errors included; later detectors are never consulted |
| `Compression.FirstMatchPassesThrough` | src/compression.rs:94-96 | when no detector claims the input, the result is `Ok` of the input byte for byte |
| `Compression.CompressionManager.Decompress` | src/compression.rs:83-97 | the `for` loop returns the first-match result over the detector list |
| `Compression.DetectorsExclusive` | src/compression.rs:34-65 | no input is claimed by both the gzip and the zlib detector |
| `Compression.ShortInputNeverDetected` | src/compression.rs:34-65 | an input of two bytes or fewer is claimed by neither detector |
| `Compression.ManagerUsesGzip` | src/compression.rs:74-92 | with the manager's order, input starting `1f 8b` (over 2 bytes) gets the gzip decoder's result, error included, with no fallback |
| `Compression.ManagerUsesZlib` | src/compression.rs:74-92 | input starting `78` then `9c`, `da` or `01` (over 2 bytes) gets the zlib decoder's result, error included |
| `Compression.ManagerPassesThrough` | src/compression.rs:83-96 | input neither detector claims is returned unchanged |
| `Compression.JsonTextPassesThrough` | src/compression.rs:83-96 | an uncompressed JSON object (first byte `{`) is returned unchanged |
| `Compression.ZlibDetectionSound` | src/compression.rs:63-65 | every header the zlib detector claims is a valid RFC 1950 header (CM 8, CINFO at most 7, FCHECK correct, no preset dictionary) |
| `Compression.ZlibLevelTwoToFiveNotDetected` | src/compression.rs:63-65 | the valid RFC 1950 header `78 5e` is not claimed, and such input passes through unchanged |
| `Storage.EvictKeepsNewest` | src/storage.rs:80-85 | after the append, the eviction loop leaves exactly the newest `min(len, max_size)` entries, in order: only head entries are removed |
| `Storage.EvictLength` | src/storage.rs:83-85 | after eviction the length is `min(len, max_size)`, so never above `max_size` |
| `Storage.EvictBelowCapacity` | src/storage.rs:80-85 | at or below capacity nothing is evicted |
| `Storage.EvictZeroCapacity` | src/storage.rs:83-85 | with `max_size` 0 the loop evicts everything, the entry just appended included |
| `Storage.EvictThenAppend` | src/storage.rs:79-85 | evicting after each append equals evicting once from the whole append history |
| `Storage.NewestFirst` | src/storage.rs:100-105 | `iter().rev().take(k).map(to_response)` has `min(k, len)` elements, the i-th being the response of the i-th newest entry |
| `Storage.InMemoryMessageStore.constructor` | src/storage.rs:53-66 | a new store is empty, has the given capacity, and has published nothing |
| `Storage.InMemoryMessageStore.AddMessage` | src/storage.rs:70-92 | the new contents are the old contents plus the new entry with eviction applied; exactly one response, that entry's, is published after the append; the store invariant is kept |
| `Storage.InMemoryMessageStore.GetMessages` | src/storage.rs:94-107 | returns `min(limit, len)` responses, all of them for `None`, newest first; it only reads the store |
| `Storage.ValidStoreHoldsNewest` | src/storage.rs:78-86 | after any sequence of appends the store holds the newest `min(n, max_size)` of all entries ever appended, in order |
| `Storage.InMemoryMessageStore.GetStats` | src/storage.rs:109-120 | the two integer statistics; `Storage.StatsWithinCapacity` states that they are the current count and the capacity, and that the count never exceeds the capacity |
| `Storage.StatsWithinCapacity` | src/storage.rs:109-120 | `total_messages` is the length, `max_capacity` is `max_size`, and the first never exceeds the second |
| `Storage.SnapshotNewestFirst` | src/storage.rs:100-105 | a full newest-first snapshot of the held entries R1, R2, R3 (oldest first) is `[R3, R2, R1]` |
| `Storage.SnapshotLimits` | src/storage.rs:97-105 | a limit of 0 yields an empty snapshot; a limit at or above the length yields the full one |
| `UdpHandler.RecvFrom` | src/udp_handler.rs:63-66 | the receive fills the buffer's first `min(datagram, buffer)` bytes with the datagram and returns that count |
| `UdpHandler.UdpMessageHandler.New` | src/udp_handler.rs:31-33 | a handler with buffer size 8192, the gzip-then-zlib manager and the JSON parser |
| `UdpHandler.UdpMessageHandler.WithConfig` | src/udp_handler.rs:35-43 | the same with the given configuration |
| `UdpHandler.UdpMessageHandler.Run` | src/udp_handler.rs:57-135 | the store's history grows by exactly the entries of the accepted datagrams, in arrival order, and the store invariant holds throughout |
| `UdpHandler.UdpMessageHandler.HandleEvent` | src/udp_handler.rs:63-133 | one iteration adds to the store exactly what `Step` accepts for the event, and nothing on any error |
| `UdpHandler.UdpMessageHandler.GetSafePreview` | src/udp_handler.rs:137-148 | text that fits is returned whole; otherwise the prefix up to the largest char boundary at or below `max_len`; the loop's result is `Utf8.SafePreview` |
| `UdpHandler.AppendedConcat` | src/udp_handler.rs:61-134 | processing two runs of events one after the other appends the first run's entries, then the second's |
| `UdpHandler.AppendedAtMostOnePerEvent` | src/udp_handler.rs:61-134 | no event adds more than one entry |
| `UdpHandler.AllDroppedAppendsNothing` | src/udp_handler.rs:61-134 | if no event is accepted, nothing is appended |
| `UdpHandler.ReceiveErrorAppendsNothing` | src/udp_handler.rs:129-132 | a receive error adds nothing |
| `UdpHandler.DecompressErrorAppendsNothing` | src/udp_handler.rs:88-92 | a datagram whose decompression fails adds nothing |
| `UdpHandler.ParseErrorAppendsNothing` | src/udp_handler.rs:122-126 | a datagram that decompresses but fails to parse adds nothing |
| `UdpHandler.SuccessAppendsOne` | src/udp_handler.rs:75-121 | a datagram that decompresses and parses adds exactly one entry: the parsed record, with the lossily decoded text as raw message |
| `UdpHandler.OnlyBufferedBytesMatter` | src/udp_handler.rs:63-66 | bytes of a datagram beyond the buffer size never change the outcome |
| `UdpHandler.MalformedThenValid` | src/udp_handler.rs:61-134 | one rejected event then one accepted datagram appends exactly the accepted one |
| `UdpHandler.GzipRoundTrip` | src/udp_handler.rs:75-119 | a gzip datagram whose decoding is a text neither detector claims (any JSON text) is stored exactly as that uncompressed datagram would be |
| `UdpHandler.ZlibRoundTrip` | src/udp_handler.rs:75-119 | the same for a zlib datagram |
| `UdpHandler.LoggedPreviewsWellFormed` | src/udp_handler.rs:97-103 | when the lossily decoded text is well-formed UTF-8, the 200-byte and 100-byte previews logged for it are well formed |

## Left out

- Broadcast channel semantics are not modelled. The ghost log `published`
  holds every response handed to `DefaultBroadcaster::broadcast`. Left out:
  - subscribe;
  - the per-subscriber capacity of 100 (src/storage.rs:54) and the lag
    signal;
  - the `Err` that `send` returns when there is no subscriber, which the
    store ignores anyway.
- The tokio `RwLock` and all concurrency are left out. The store's methods
  run one at a time.
- `capacity_used_percent` in `get_stats` is left out. It is a
  floating-point division (src/storage.rs:117), and the model does no
  floating-point arithmetic. `received_at` is an opaque 64-bit pattern.
- `Gelf.FromJson`: the JSON `timestamp` is kept as the decoded JSON number,
  not converted to `f64`.
- `Gelf.FromJson`: when several named fields are ill-typed, serde reports
  the first in document order. The model reports the first in declaration
  order. Success and failure agree.
- `Gelf.FromJson`: a JSON object is a map, so duplicate keys (serde's
  "duplicate field" error) are not modelled.
- `Gelf.JsonGelfParser.FromStr`: serde_json reads text and record in one
  pass. The model first decodes, then projects. The error reported can
  differ when the text has both a syntax error and an ill-typed field.
- These foreign calls are abstract function parameters: flate2's decoders,
  serde_json's text decoder and `String::from_utf8_lossy`. The model does
  not relate compression to decompression. The round-trip lemmas take the
  decoder's output as a hypothesis.
- `Gelf.JsonError`: `InvalidType(key)` and `InvalidValue(key)` name the
  field whose value serde's reported position points at. serde's own error
  carries only a message, a line and a column, not the field name.
- `UdpHandler.UdpMessageHandler`: `fromUtf8Lossy` is unconstrained. That
  `String::from_utf8_lossy` always returns well-formed UTF-8 enters only as
  the hypothesis of `UdpHandler.LoggedPreviewsWellFormed`.
- `Utf8.WellFormed` is structural only. It does not exclude overlong forms,
  surrogates or code points above U+10FFFF.
- Socket binding, `recv_from`'s source address and the endless loop are
  left out. `Run` covers a finite prefix of the events, and the address is
  used only in log lines.
- `handle_udp_messages` (src/udp_handler.rs:152-155) is not modelled
  separately. It is `New` followed by `Run`.
- `with_parser` (src/udp_handler.rs:47-55) is left out. It is generic over
  the parser trait, and only `JsonGelfParser` exists.
- All `tracing` output is left out. Only the two previews are computed,
  because their loops are part of the core. This includes the redundant
  compression-type naming (src/compression.rs:86-88).
- `usize` lengths, `limit` and `max_size` are unbounded `nat`s. The code only
  compares them, passes them to `take` and converts them to `f64`; it does
  no integer arithmetic on them that could wrap, so the unbounded model
  agrees with it for every `usize` value.
- Never part of the core: the web layer (src/web/), src/main.rs,
  src/config.rs, and the module re-exports in src/lib.rs.
