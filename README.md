# faststream-compressors: the codec-chain engine and its header protocol

This project models the core of `faststream_compressors`, a compression layer
that sits in a messaging framework's publish and receive hooks.

On publish, the message body goes through an ordered chain of codecs. Each
codec's tag is recorded in application order and written to the
`content-encoding` header, joined with `", "`. On receive, that header is
split on commas, each piece is stripped, the list is reversed, and each tag is
resolved to the first registered decompressor with exactly that tag. The
decompressors run in that order. The new body is committed only if every step
succeeded. This follows the ordering rule of HTTP `Content-Encoding`, where
codings are listed in the order they were applied (section 8.4 of RFC 9110).

Modules:

- `Builtins` (builtins.dfy): the Python built-ins the core relies on.
  `str.split(",")`, `str.strip()` (with Python's whitespace set), `str.join`
  and `reversed`, with lemmas showing that split and join are inverses.
- `Codecs` (codecs.dfy): the `BaseCompressor` interface as a datatype. It
  holds a tag and an opaque transform, and the transform gives `None` where
  the library raises. Also the two failures a chain can end in:
  `UnknownEncoding(tag)` (errors.py) and a codec that raised.
- `Handler` (handler.py): `get_compressor`, plus the two handler classes.
  Their `__call__` loops are methods proved against the specification
  functions `Compressed` and `Decompressed`. Lemmas cover fold order,
  first-match lookup, failure on unknown tags and the reversed-order round trip.
- `NatsHeaders` (middlewares/nats.py): the `content_type` and
  `content_encoding` accessors as pure functions of the header map, and the
  lemma that parsing the joined header gives back the tags.
- `Middleware` (middlewares/__init__.py): `make_middleware`, construction,
  `on_receive` and `publish_scope`. The message and the publisher's header
  dict are classes mutated in place. Each hook is proved against a pure
  function (`Received`, `Published`) that lemmas describe. An end-to-end
  lemma shows that a published-then-received message gets its bytes back.

Collaborators are parameters. A codec is a tag plus a function. The round trip
assumes that each tag's decompressor inverts its compressor (`Codecs.Inverts`).
`encode_message` is an `Encoder` argument that may fail. `call_next` is modelled
as returning what would be forwarded.

## Model

| member | source | states |
|---|---|---|
| `Builtins.TrimLeft` | faststream_compressors/middlewares/nats.py:16 | the result is a suffix of the input, everything removed is whitespace, and the result does not start with whitespace |
| `Builtins.TrimRight` | faststream_compressors/middlewares/nats.py:16 | the result is a prefix of the input, everything removed is whitespace, and the result does not end with whitespace |
| `Builtins.Strip` | faststream_compressors/middlewares/nats.py:16 | the result is a contiguous slice of the input, everything cut off before and after it is whitespace, and the result has no surrounding whitespace; so it is the input with its leading and trailing whitespace removed, and an input with none is returned unchanged |
| `Builtins.StripAll` | faststream_compressors/middlewares/nats.py:16 | one stripped piece per input piece (the length is kept); `Builtins.StripAllAt` fixes each element as the stripped piece at the same place |
| `Builtins.StripLeadingBlank` | faststream_compressors/middlewares/nats.py:16 | the blank that `", "` puts after each comma disappears under strip |
| `Builtins.Split` | faststream_compressors/middlewares/nats.py:16 | always at least one piece; `Builtins.SplitCount`, `Builtins.SplitPieceLacksSeparator` and `Builtins.JoinSplit` fix the count, the pieces and their order |
| `Builtins.SplitCount` | faststream_compressors/middlewares/nats.py:16 | the number of pieces is the number of separators plus one, so `""` gives one empty piece |
| `Builtins.SplitPieceLacksSeparator` | faststream_compressors/middlewares/nats.py:16 | no piece contains the separator |
| `Builtins.StripKeepsAbsent` | faststream_compressors/middlewares/nats.py:16 | strip only removes characters, so a character missing from a piece is missing after stripping |
| `Builtins.Join` | faststream_compressors/handler.py:47 | the first piece is a prefix of the joined string; `Builtins.SplitJoin` and `Builtins.JoinSplit` show that splitting on the separator undoes it |
| `Builtins.SplitJoin` | faststream_compressors/middlewares/nats.py:16 | splitting a joined list gives the list back, in order, when no piece holds the separator |
| `Builtins.JoinSplit` | faststream_compressors/middlewares/nats.py:16 | rejoining the pieces of a split with the separator gives back the original string, so the pieces keep their order |
| `Builtins.Reversed` | faststream_compressors/middlewares/__init__.py:81 | the length is kept; `Builtins.ReversedAt` fixes every element |
| `Builtins.ReversedAt` | faststream_compressors/middlewares/__init__.py:81 | element k of `reversed(s)` is element `len(s)-1-k` of `s`, and the length is kept |
| `Codecs.Codec.Apply` | faststream_compressors/compressors/__init__.py:15-23 | calling a codec gives its transform's output, or a failure naming the codec when the transform raises |
| `Handler.Encodings` | faststream_compressors/handler.py:44-45 | one tag per codec, in configured order |
| `Handler.HeaderValue` | faststream_compressors/handler.py:47 | there is no header value exactly when the chain is empty |
| `Handler.Compressed` | faststream_compressors/handler.py:44-46 | an empty chain returns the data unchanged, and a failure always names a codec of the chain; `Handler.CompressedAppend` gives the application order |
| `Handler.CompressedAppend` | faststream_compressors/handler.py:44-46 | the chain is a left fold: running `a + b` is running `a` and then feeding its output to `b`, stopping at the first failure |
| `Handler.GetCompressor` | faststream_compressors/handler.py:17-30 | fails with `UnknownEncoding(tag)` exactly when no codec's tag equals `tag`; otherwise it returns a registered codec with exactly that tag |
| `Handler.GetCompressorFirstMatch` | faststream_compressors/handler.py:25-27 | the codec returned is the first one in configuration order whose tag matches |
| `Handler.GetCompressorIgnoresLater` | faststream_compressors/handler.py:25-27 | codecs registered after a match, duplicates included, never change what a tag resolves to |
| `Handler.Decompressed` | faststream_compressors/handler.py:61-64 | an empty tag list returns the data unchanged, and a failure is `UnknownEncoding` or a codec failure of a tag in the list |
| `Handler.DecompressedAppend` | faststream_compressors/handler.py:61-63 | decompressing `a + b` is decompressing `a` and then `b`, stopping at the first failure |
| `Handler.DecompressedUnknownFails` | faststream_compressors/handler.py:61-63 | if the k-th tag is the first unresolvable one, no buffer comes out; the failure is `UnknownEncoding` of that tag, or a codec failure of an earlier tag |
| `Handler.DecompressedOkResolvesAll` | faststream_compressors/handler.py:61-64 | a decompression that succeeds resolved every tag in the list |
| `Handler.DecompressReversedRoundTrip` | faststream_compressors/handler.py:61-64 | if each codec's tag resolves to a decompressor that inverts it, decompressing the chain's output with the reversed tag list gives back the input |
| `Handler.CompressorHandler.constructor` | faststream_compressors/handler.py:14-15 | the handler keeps the codecs in the order given |
| `Handler.CompressorHandler.Compress` | faststream_compressors/handler.py:36-47 | on success, returns the chain's left fold over the data and the joined tags (`None` for an empty chain); otherwise returns the failure of the first codec that raised |
| `Handler.DecompressorHandler.constructor` | faststream_compressors/handler.py:14-15 | the handler keeps the decompressors in the order given |
| `Handler.DecompressorHandler.Decompress` | faststream_compressors/handler.py:53-64 | returns exactly what `Decompressed` gives for the tags, in the order the caller passed them; an empty list returns the data unchanged |
| `NatsHeaders.ContentType` | faststream_compressors/middlewares/nats.py:8-10 | the `content-type` value when that header is present, otherwise nothing |
| `NatsHeaders.ContentEncoding` | faststream_compressors/middlewares/nats.py:12-16 | gives nothing exactly when the header is missing, and a list (never nothing) when it is present, even if empty |
| `NatsHeaders.ContentEncodingCount` | faststream_compressors/middlewares/nats.py:16 | a present header parses to one tag more than it has commas |
| `NatsHeaders.ContentEncodingTagsWellFormed` | faststream_compressors/middlewares/nats.py:16 | every parsed tag is free of commas and of surrounding whitespace |
| `NatsHeaders.ParseJoined` | faststream_compressors/middlewares/nats.py:16 | splitting a `", "`-joined list of well-formed tags on `,` and stripping each piece gives back the tags, in order |
| `NatsHeaders.HeaderRoundTrip` | faststream_compressors/handler.py:47 | the header written for a non-empty chain of well-formed tags parses back into exactly the chain's tags, so the element count is the chain length |
| `Middleware.Normalize` | faststream_compressors/middlewares/__init__.py:47-50 | a single codec becomes a one-element chain; a sequence is kept as given |
| `Middleware.MakeMiddleware` | faststream_compressors/middlewares/__init__.py:34-55 | both arguments are normalised and bound; compressors stay absent when none were given |
| `Middleware.ChainsAsWritten` | faststream_compressors/middlewares/__init__.py:29-30 | construction fails exactly when `compressors` is `None`; otherwise the chains are the ones given |
| `Middleware.DefaultCompressorsRaise` | faststream_compressors/middlewares/__init__.py:38 | with the default `compressors`, the factory cannot build a middleware |
| `Middleware.Chains` | faststream_compressors/middlewares/__init__.py:29-30 | agrees with the code wherever the code succeeds, and treats absent compressors as an empty chain |
| `Middleware.ReceiveOnlyPublishPassesThrough` | faststream_compressors/middlewares/__init__.py:95-96 | a middleware built without compressors forwards every outgoing message and its headers unchanged |
| `Middleware.Received` | faststream_compressors/middlewares/__init__.py:75-86 | without `content-encoding` the body is untouched. The body is replaced exactly when decompressing with the reversed tag list succeeds, and then by its result. Otherwise it stays as received. With the header present, the result is `Settled` applied to that decompression, so every failure branch is fixed |
| `Middleware.Settled` | faststream_compressors/middlewares/__init__.py:79-86 | the outcome is `Decoded` exactly when decompression succeeded, and the body is its result; on any failure the body is kept; an unknown tag becomes the warning naming that tag, and a codec failure becomes the logged error |
| `Middleware.ReceiveUnknownEncodingWarns` | faststream_compressors/middlewares/__init__.py:83-84 | a header naming one unregistered tag leaves the body as received and warns with that tag |
| `Middleware.ReceiveKeepsBodyOnUnknownTag` | faststream_compressors/middlewares/__init__.py:79-84 | if any parsed tag has no decompressor, the body stays exactly as received and nothing is committed |
| `Middleware.ReceiveUndoesLastTagFirst` | faststream_compressors/middlewares/__init__.py:80-81 | for the header `"a, b"`, `b` is undone before `a` |
| `Middleware.Normalized` | faststream_compressors/middlewares/__init__.py:98-99 | the map is empty exactly when the headers were missing or empty; a non-empty result is the caller's map |
| `Middleware.Serialized` | faststream_compressors/middlewares/__init__.py:105-106 | with `content-type` present nothing changes; it fails exactly when `content-type` is missing and the serialiser raises; otherwise the message is the serialised bytes, and the headers gain exactly `content-type`, set to the serialiser's content type, keeping every other header |
| `Middleware.CompressPayload` | faststream_compressors/middlewares/__init__.py:107 | bytes go through the chain; a payload that is not bytes fails at the first codec |
| `Middleware.Published` | faststream_compressors/middlewares/__init__.py:88-111 | an empty chain or an existing `content-encoding` passes everything through; no existing header is overwritten; `content-encoding` is added exactly when compression succeeds, and then holds the joined tags while the message is the compressed bytes; on a failure, the state the hook reached is forwarded with outcome `CompressionFailed` (details below) |
| `Middleware.PublishIgnoresEncoderWithContentType` | faststream_compressors/middlewares/__init__.py:105-106 | with `content-type` present, the serialiser's output makes no difference to what is forwarded |
| `Middleware.PublishFailureAfterEncoding` | faststream_compressors/middlewares/__init__.py:104-109 | when compression fails after serialisation, the serialised bytes and their `content-type` are forwarded without `content-encoding` |
| `Middleware.PublishThenReceive` | faststream_compressors/middlewares/__init__.py:80-81 | a message the publish hook compressed gets back the bytes the chain was given. This holds when the receiver's decompressors undo the chain and the tags survive the header protocol |
| `Middleware.CompressionMiddleware.constructor` | faststream_compressors/middlewares/__init__.py:22-32 | the middleware holds the message and handlers built from the factory's chains |
| `Middleware.CompressionMiddleware.OnReceive` | faststream_compressors/middlewares/__init__.py:75-86 | the new body and the branch taken are those of `Received` on the old body; the body is the only thing written, and the headers are read-only |
| `Middleware.CompressionMiddleware.PublishScope` | faststream_compressors/middlewares/__init__.py:88-111 | forwards what `Published` gives. A present, non-empty header map is extended in place. A missing or empty one is replaced by a new map, and the caller's map is left alone |

`Middleware.Published` states, as its contract:

- With an empty chain, the message and headers pass through unchanged. This
  check comes before the headers are looked at.
- Otherwise a header map is always forwarded.
- A message that already carries `content-encoding` goes out unchanged.
- No header already present is overwritten. In particular, an existing
  `content-type` is kept.
- `content-encoding` is added exactly when serialisation (if needed) and
  compression both succeed. The message is then the chain's output, and the
  header is the joined tags.
- A failure never stops the message from being forwarded. The outcome is then
  `CompressionFailed`. If serialisation succeeded, the serialised bytes go out
  with the headers it produced. Otherwise the original message goes out with
  the normalised headers.

## Findings

| source | as written | input that shows it | evidently intended | confidence | as-written member | corrected member |
|---|---|---|---|---|---|---|
| faststream_compressors/middlewares/__init__.py:38 | `compressors` defaults to `None`, and `__init__` (line 30) unpacks it with `*compressors`, which raises `TypeError` for `None` | `make_middleware(GzipDecompressor())`, then building the middleware for a message | leaving out compressors gives a receive-only middleware with an empty compression chain, whose publish hook passes messages through | high; not executed | `Middleware.ChainsAsWritten` (shown by `Middleware.DefaultCompressorsRaise`) | `Middleware.Chains` (property: `Middleware.ReceiveOnlyPublishPassesThrough`) |

The middleware class is built with `Middleware.Chains`.

## Left out

- The codecs themselves (gzip, lzma, lz4 in compressors/gzip.py, lzma.py and lz4.py), their formats and tuning options. A codec is a tag and an opaque transform. The round trip takes "the decompressor inverts the compressor" as a hypothesis (`Codecs.Inverts`).
- `encode_message` is a parameter. Its content type is always a string here. faststream's own `encode_message` can also return no content type, which the code would store as `None` in the header map; that case is not modelled.
- `async`/`await`, `BaseMiddleware`, `call_next` and the `*args`/`**kwargs` passed along. The hooks return what they would forward. A `headers` keyword missing from `kwargs` (a `KeyError` outside the `try`) is not modelled.
- Logging: the message texts (including `UnknownEncoding`'s `"Unknown encoding: '…'"` from errors.py) are not modelled. Only the branch taken is recorded (`ReceiveOutcome`, `PublishOutcome`).
- The abstract base middleware and its NATS subclass are one class, because the subclass only supplies the two header accessors. The NATS message's header map is always present. A NATS message with no headers at all (`headers` is `None`) would make `content_encoding` raise; that case is not modelled.
- Python's exception classes are folded into two failures: an unknown tag, and any exception raised by a codec. A non-bytes payload reaching the chain is a failure of the first codec.
- faststream_compressors/__init__.py is re-exports only. It imports a `CompressionMiddleware` that middlewares/__init__.py does not define, and it is not part of this model.
- Concurrency and per-message scheduling: the code has none of its own.
