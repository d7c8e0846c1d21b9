/**
 The compression middleware: its construction from a factory, the receive
 hook that undoes the chain named in `content-encoding` (last applied, first
 undone) and commits the body only on full success, and the publish hook
 that compresses an outgoing message and stamps its headers, never blocking
 delivery. The NATS binding supplies the two header accessors.
 */
module Middleware {
  import opened Codecs
  import Builtins
  import Handler
  import NatsHeaders

  /** The body a publisher hands over: bytes, or an application object that
      the serialiser has to turn into bytes (its text stands for it). */
  datatype Payload = RawBytes(data: Bytes) | Object(value: string)

  /** The serialisation collaborator `encode_message`: bytes and a content
      type, or `None` where it raises. */
  type Encoder = Payload -> Option<(Bytes, string)>

  /** What `make_middleware` accepts for either chain: one codec or a sequence. */
  datatype CodecArg = One(codec: Codec) | Many(codecs: seq<Codec>)

  /** The configuration `make_middleware` binds; `compressors` is `None` when
      the caller gave none. */
  datatype Factory = Factory(decompressors: seq<Codec>, compressors: Option<seq<Codec>>)

  /** A single codec becomes a one-element chain; a sequence is kept as given. */
  function Normalize(arg: CodecArg): (r: seq<Codec>)
    ensures arg.One? ==> r == [arg.codec]
    ensures arg.Many? ==> r == arg.codecs
  {
    match arg
    case One(c) => [c]
    case Many(cs) => cs
  }

  /** `make_middleware`: normalises both arguments and binds them. */
  function MakeMiddleware(decompressors: CodecArg, compressors: Option<CodecArg>): (f: Factory)
    ensures f.decompressors == Normalize(decompressors)
    ensures f.compressors.Some? <==> compressors.Some?
    ensures compressors.Some? ==> f.compressors.value == Normalize(compressors.value)
  {
    Factory(Normalize(decompressors),
            match compressors case None => None case Some(arg) => Some(Normalize(arg)))
  }

  /** `__init__` as written: the compressor handler is built from
      `*compressors`, which raises when `compressors` is `None`; `None` here
      stands for that exception. Gives the decompressor and compressor chains. */
  function ChainsAsWritten(f: Factory): (r: Option<(seq<Codec>, seq<Codec>)>)
    ensures r.None? <==> f.compressors.None?
    ensures r.Some? ==> r.value == (f.decompressors, f.compressors.value)
  {
    match f.compressors
    case None => None
    case Some(cs) => Some((f.decompressors, cs))
  }

  /** With its default `compressors`, `make_middleware` yields a factory that
      cannot build a middleware. */
  lemma DefaultCompressorsRaise(d: Codec)
    ensures MakeMiddleware(One(d), None).compressors.None?
    ensures ChainsAsWritten(MakeMiddleware(One(d), None)).None?
  {
  }

  /** `__init__` as evidently intended: no compressors means an empty
      compression chain. Agrees with the code wherever the code succeeds. */
  function Chains(f: Factory): (r: (seq<Codec>, seq<Codec>))
    ensures r.0 == f.decompressors
    ensures ChainsAsWritten(f).Some? ==> r == ChainsAsWritten(f).value
    ensures f.compressors.None? ==> r.1 == []
  {
    (f.decompressors, match f.compressors case None => [] case Some(cs) => cs)
  }

  /** A receive-only middleware (no compressors given) forwards every
      outgoing message and its headers unchanged. */
  lemma ReceiveOnlyPublishPassesThrough(d: Codec, encode: Encoder, msg: Payload, headers: Option<map<string, string>>)
    ensures Published(Chains(MakeMiddleware(One(d), None)).1, encode, msg, headers)
      == Forwarded(msg, headers, PassedThrough)
  {
  }

  // ---------------------------------------------------------------------
  // Receive side

  /** Which branch the receive hook took; the two failure branches are the
      ones logged as a warning and as an error. */
  datatype ReceiveOutcome =
    | NotCompressed
    | Decoded
    | UnknownEncodingWarning(encoding: string)
    | DecompressionError

  datatype Delivery = Delivery(body: Bytes, outcome: ReceiveOutcome)

  /** The body the receive hook leaves in the message, and the branch taken. */
  function Received(decompressors: seq<Codec>, headers: map<string, string>, body: Bytes): (r: Delivery)
    ensures NatsHeaders.ContentEncodingHeader !in headers ==> r == Delivery(body, NotCompressed)
    ensures r.outcome.Decoded? <==>
      NatsHeaders.ContentEncodingHeader in headers
      && Handler.Decompressed(decompressors, Builtins.Reversed(NatsHeaders.ContentEncoding(headers).value), body).Ok?
    ensures r.outcome.Decoded? ==>
      r.body == Handler.Decompressed(decompressors, Builtins.Reversed(NatsHeaders.ContentEncoding(headers).value), body).value
    ensures !r.outcome.Decoded? ==> r.body == body
    ensures NatsHeaders.ContentEncodingHeader in headers ==>
      r == Settled(Handler.Decompressed(decompressors, Builtins.Reversed(NatsHeaders.ContentEncoding(headers).value), body), body)
  {
    var encodings := NatsHeaders.ContentEncoding(headers);
    if encodings.None? || encodings.value == [] then Delivery(body, NotCompressed)
    else Settled(Handler.Decompressed(decompressors, Builtins.Reversed(encodings.value), body), body)
  }

  /** The receive hook's commit rule: the decompressed buffer replaces the
      body only on success; each failure keeps the body and names its branch. */
  function Settled(result: Result<Bytes>, body: Bytes): (r: Delivery)
    ensures r.outcome.Decoded? <==> result.Ok?
    ensures result.Ok? ==> r.body == result.value
    ensures result.Err? ==> r.body == body
    ensures result.Err? && result.failure.UnknownEncoding? ==> r.outcome == UnknownEncodingWarning(result.failure.encoding)
    ensures result.Err? && result.failure.CodecFailed? ==> r.outcome == DecompressionError
  {
    match result
    case Ok(out) => Delivery(out, Decoded)
    case Err(UnknownEncoding(e)) => Delivery(body, UnknownEncodingWarning(e))
    case Err(CodecFailed(_)) => Delivery(body, DecompressionError)
  }

  /** A header naming one tag that no decompressor carries leaves the body as
      received and warns with that tag. */
  lemma ReceiveUnknownEncodingWarns(decompressors: seq<Codec>, tag: string, headers: map<string, string>, body: Bytes)
    requires NatsHeaders.WellFormedTag(tag)
    requires Handler.Unresolvable(decompressors, tag)
    requires NatsHeaders.ContentEncodingHeader in headers && headers[NatsHeaders.ContentEncodingHeader] == tag
    ensures Received(decompressors, headers, body) == Delivery(body, UnknownEncodingWarning(tag))
  {
    NatsHeaders.ParseJoined([tag]);
    assert NatsHeaders.ContentEncoding(headers).value == [tag];
    assert Builtins.Reversed([tag]) == [tag];
  }

  /** If any tag of the header has no decompressor, the body stays exactly as
      received: no partially decompressed buffer is ever committed. */
  lemma ReceiveKeepsBodyOnUnknownTag(decompressors: seq<Codec>, headers: map<string, string>, body: Bytes, i: nat)
    requires NatsHeaders.ContentEncodingHeader in headers
    requires i < |NatsHeaders.ContentEncoding(headers).value|
    requires Handler.Unresolvable(decompressors, NatsHeaders.ContentEncoding(headers).value[i])
    ensures Received(decompressors, headers, body).body == body
    ensures !Received(decompressors, headers, body).outcome.Decoded?
  {
    var tags := NatsHeaders.ContentEncoding(headers).value;
    var reversed := Builtins.Reversed(tags);
    Builtins.ReversedAt(tags, |tags| - 1 - i);
    if Handler.Decompressed(decompressors, reversed, body).Ok? {
      Handler.DecompressedOkResolvesAll(decompressors, reversed, body);
      assert false;
    }
  }

  /** For a header `"a, b"` the decompressor of `b` runs before that of `a`. */
  lemma ReceiveUndoesLastTagFirst(decompressors: seq<Codec>, a: string, b: string, headers: map<string, string>, body: Bytes)
    requires NatsHeaders.WellFormedTag(a) && NatsHeaders.WellFormedTag(b)
    requires NatsHeaders.ContentEncodingHeader in headers && headers[NatsHeaders.ContentEncodingHeader] == a + ", " + b
    requires Handler.Decompressed(decompressors, [b, a], body).Ok?
    ensures Received(decompressors, headers, body) == Delivery(Handler.Decompressed(decompressors, [b, a], body).value, Decoded)
  {
    Builtins.JoinPair(a, b, ", ");
    NatsHeaders.ParseJoined([a, b]);
    Builtins.ReversedPair(a, b);
  }

  // ---------------------------------------------------------------------
  // Publish side

  /** Which branch the publish hook took; `CompressionFailed` is the one that
      is logged, and the message is forwarded all the same. */
  datatype PublishOutcome = PassedThrough | CompressedOk | CompressionFailed

  /** What the publish hook hands to the next hook: the message and the
      headers value (`None` stands for Python's `None`). */
  datatype Forwarded = Forwarded(msg: Payload, headers: Option<map<string, string>>, outcome: PublishOutcome)

  /** The chain's output for a payload; a payload that is not bytes makes
      the first codec raise. */
  function CompressPayload(compressors: seq<Codec>, msg: Payload): (r: Result<Bytes>)
    requires compressors != []
    ensures msg.RawBytes? ==> r == Handler.Compressed(compressors, msg.data)
    ensures msg.Object? ==> r == Err(CodecFailed(compressors[0].encoding))
  {
    match msg
    case Object(_) => Err(CodecFailed(compressors[0].encoding))
    case RawBytes(data) => Handler.Compressed(compressors, data)
  }

  /** The header map the publish hook works on: a missing or empty map is
      replaced by a new empty one. */
  function Normalized(headers: Option<map<string, string>>): (r: map<string, string>)
    ensures r == map[] <==> headers.None? || headers.value == map[]
    ensures r != map[] ==> headers == Some(r)
  {
    if headers.None? || headers.value == map[] then map[] else headers.value
  }

  /** The payload and headers after the serialisation step, or `None` where
      the serialiser raised. It is consulted only when `content-type` is
      missing, and then it sets `content-type`. */
  function Serialized(encode: Encoder, msg: Payload, h: map<string, string>): (r: Option<(Payload, map<string, string>)>)
    ensures NatsHeaders.ContentTypeHeader in h ==> r == Some((msg, h))
    ensures r.None? <==> NatsHeaders.ContentTypeHeader !in h && encode(msg).None?
    ensures NatsHeaders.ContentTypeHeader !in h && r.Some? ==>
      r.value.0 == RawBytes(encode(msg).value.0)
      && r.value.1.Keys == h.Keys + {NatsHeaders.ContentTypeHeader}
      && r.value.1[NatsHeaders.ContentTypeHeader] == encode(msg).value.1
      && forall k :: k in h ==> r.value.1[k] == h[k]
  {
    if NatsHeaders.ContentTypeHeader in h then Some((msg, h))
    else
      match encode(msg)
      case None => None
      case Some((bytes, contentType)) =>
        Some((RawBytes(bytes), h[NatsHeaders.ContentTypeHeader := contentType]))
  }

  /** The message and headers the publish hook forwards. */
  function Published(compressors: seq<Codec>, encode: Encoder, msg: Payload, headers: Option<map<string, string>>): (r: Forwarded)
    // an empty chain passes everything through, before the headers are looked at
    ensures compressors == [] ==> r == Forwarded(msg, headers, PassedThrough)
    // otherwise a headers map is always forwarded, and nothing is ever dropped
    ensures compressors != [] ==> r.headers.Some?
    // a message that already carries content-encoding goes out unchanged
    ensures compressors != [] && headers.Some? && NatsHeaders.ContentEncodingHeader in headers.value
      ==> r == Forwarded(msg, headers, PassedThrough)
    // no header already present is overwritten
    ensures headers.Some? && r.headers.Some? ==>
      forall k :: k in headers.value ==> k in r.headers.value && r.headers.value[k] == headers.value[k]
    // content-encoding is added exactly when compression succeeded, and then
    // it names the chain and the message is the chain's output
    ensures r.outcome == CompressedOk <==>
      compressors != [] && NatsHeaders.ContentEncodingHeader !in Normalized(headers)
      && Serialized(encode, msg, Normalized(headers)).Some?
      && CompressPayload(compressors, Serialized(encode, msg, Normalized(headers)).value.0).Ok?
    ensures r.outcome == CompressedOk ==>
      r.msg == RawBytes(CompressPayload(compressors, Serialized(encode, msg, Normalized(headers)).value.0).value)
      && r.headers == Some(Serialized(encode, msg, Normalized(headers)).value.1[NatsHeaders.ContentEncodingHeader := Handler.HeaderValue(compressors).value])
    ensures r.outcome != CompressedOk && r.headers.Some? && NatsHeaders.ContentEncodingHeader in r.headers.value
      ==> headers.Some? && NatsHeaders.ContentEncodingHeader in headers.value
    // a failure forwards the state it reached: the serialised message and its
    // content-type if serialisation succeeded, the original message otherwise
    ensures var s := Serialized(encode, msg, Normalized(headers));
      compressors != [] && NatsHeaders.ContentEncodingHeader !in Normalized(headers) && r.outcome != CompressedOk
      ==> r.outcome == CompressionFailed
          && r.msg == (if s.Some? then s.value.0 else msg)
          && r.headers == Some(if s.Some? then s.value.1 else Normalized(headers))
  {
    if |compressors| == 0 then Forwarded(msg, headers, PassedThrough)
    else
      var h := Normalized(headers);
      if NatsHeaders.ContentEncodingHeader in h then Forwarded(msg, Some(h), PassedThrough)
      else
        match Serialized(encode, msg, h)
        case None => Forwarded(msg, Some(h), CompressionFailed)
        case Some((m, h2)) =>
          match CompressPayload(compressors, m)
          case Err(_) => Forwarded(m, Some(h2), CompressionFailed)
          case Ok(out) =>
            Forwarded(RawBytes(out), Some(h2[NatsHeaders.ContentEncodingHeader := Handler.HeaderValue(compressors).value]), CompressedOk)
  }

  /** The serialiser is consulted only when `content-type` is missing: with
      `content-type` present, what it would return makes no difference. */
  lemma PublishIgnoresEncoderWithContentType(compressors: seq<Codec>, e1: Encoder, e2: Encoder, msg: Payload, headers: map<string, string>)
    requires NatsHeaders.ContentTypeHeader in headers
    ensures Published(compressors, e1, msg, Some(headers)) == Published(compressors, e2, msg, Some(headers))
  {
  }

  /** When compression fails after serialisation, the serialised bytes and
      their content type go out, without content-encoding. */
  lemma PublishFailureAfterEncoding(compressors: seq<Codec>, encode: Encoder, msg: Payload, headers: Option<map<string, string>>)
    requires compressors != []
    requires NatsHeaders.ContentTypeHeader !in Normalized(headers) && NatsHeaders.ContentEncodingHeader !in Normalized(headers)
    requires encode(msg).Some?
    requires Handler.Compressed(compressors, encode(msg).value.0).Err?
    ensures Published(compressors, encode, msg, headers)
      == Forwarded(RawBytes(encode(msg).value.0),
                   Some(Normalized(headers)[NatsHeaders.ContentTypeHeader := encode(msg).value.1]),
                   CompressionFailed)
  {
  }

  /** End to end: a message that the publish hook compressed, received by a
      middleware whose decompressors undo that chain, gets back the bytes the
      chain was given, provided the tags survive the header protocol. */
  lemma PublishThenReceive(compressors: seq<Codec>, decompressors: seq<Codec>, encode: Encoder,
                           msg: Payload, headers: Option<map<string, string>>)
    requires forall i :: 0 <= i < |compressors| ==> NatsHeaders.WellFormedTag(compressors[i].encoding)
    requires Handler.CanUndo(decompressors, compressors)
    requires Published(compressors, encode, msg, headers).outcome == CompressedOk
    ensures var sent := Published(compressors, encode, msg, headers);
      var original := Serialized(encode, msg, Normalized(headers)).value.0;
      original.RawBytes?
      && Received(decompressors, sent.headers.value, sent.msg.data) == Delivery(original.data, Decoded)
  {
    var sent := Published(compressors, encode, msg, headers);
    var original := Serialized(encode, msg, Normalized(headers)).value.0;
    NatsHeaders.HeaderRoundTrip(compressors, sent.headers.value);
    Handler.DecompressReversedRoundTrip(decompressors, compressors, original.data);
  }

  // ---------------------------------------------------------------------
  // The middleware object

  /** The NATS message the receive hook works on: the hook rewrites its body
      and only reads its headers. */
  class Message {
    var data: Bytes
    const headers: map<string, string>

    constructor(data: Bytes, headers: map<string, string>)
      ensures this.data == data && this.headers == headers
    {
      this.data := data;
      this.headers := headers;
    }
  }

  /** The `headers` dict a publisher passes in; the publish hook adds to it in
      place, so the publisher sees the additions. */
  class HeaderMap {
    var entries: map<string, string>

    constructor(entries: map<string, string>)
      ensures this.entries == entries
    {
      this.entries := entries;
    }
  }

  /** `BaseCompressionMiddleware` with the accessors of its NATS binding. */
  class CompressionMiddleware {
    const msg: Message
    const decompressorHandler: Handler.DecompressorHandler
    const compressorHandler: Handler.CompressorHandler

    /** Instantiates a factory from `make_middleware` for one message. */
    constructor(msg: Message, factory: Factory)
      ensures this.msg == msg
      ensures decompressorHandler.decompressors == Chains(factory).0
      ensures compressorHandler.compressors == Chains(factory).1
    {
      var chains := Chains(factory);
      this.msg := msg;
      decompressorHandler := new Handler.DecompressorHandler(chains.0);
      compressorHandler := new Handler.CompressorHandler(chains.1);
    }

    function ContentType(): Option<string>
      reads msg
    {
      NatsHeaders.ContentType(msg.headers)
    }

    function ContentEncoding(): Option<seq<string>>
      reads msg
    {
      NatsHeaders.ContentEncoding(msg.headers)
    }

    /** `on_receive`: decompresses the body with the parsed tags reversed and
        assigns it once, only if every step succeeded. */
    method OnReceive() returns (outcome: ReceiveOutcome)
      modifies msg
      ensures Delivery(msg.data, outcome) == Received(decompressorHandler.decompressors, msg.headers, old(msg.data))
    {
      var body := msg.data;
      var encodings := ContentEncoding();
      if encodings.None? || encodings.value == [] {
        return NotCompressed;
      }
      var r := decompressorHandler.Decompress(body, Builtins.Reversed(encodings.value));
      if r.Ok? {
        msg.data := r.value;
        return Decoded;
      }
      outcome := if r.failure.UnknownEncoding? then UnknownEncodingWarning(r.failure.encoding) else DecompressionError;
    }

    /** `publish_scope`: returns what it passes to the next hook. The
        caller's header map is extended in place unless it was missing or
        empty, in which case a new map is forwarded and the caller's is left
        alone. */
    method PublishScope(msg: Payload, headers: HeaderMap?, encode: Encoder)
      returns (sentMsg: Payload, sentHeaders: HeaderMap?, outcome: PublishOutcome)
      modifies headers
      ensures var f := Published(compressorHandler.compressors, encode, msg,
                                 if headers == null then None else Some(old(headers.entries)));
        sentMsg == f.msg && outcome == f.outcome
        && (sentHeaders == null <==> f.headers.None?)
        && (sentHeaders != null ==> sentHeaders.entries == f.headers.value)
      ensures compressorHandler.compressors == [] || (headers != null && old(headers.entries) != map[])
        ==> sentHeaders == headers
      ensures compressorHandler.compressors != [] && (headers == null || old(headers.entries) == map[])
        ==> fresh(sentHeaders) && (headers != null ==> headers.entries == old(headers.entries))
    {
      var compressors := compressorHandler.compressors;
      if |compressors| == 0 {
        return msg, headers, PassedThrough;
      }
      sentHeaders := headers;
      if sentHeaders == null || sentHeaders.entries == map[] {
        sentHeaders := new HeaderMap(map[]);
      }
      if NatsHeaders.ContentEncodingHeader in sentHeaders.entries {
        return msg, sentHeaders, PassedThrough;
      }
      sentMsg := msg;
      if NatsHeaders.ContentTypeHeader !in sentHeaders.entries {
        var encoded := encode(msg);
        if encoded.None? {
          return msg, sentHeaders, CompressionFailed;
        }
        sentMsg := RawBytes(encoded.value.0);
        sentHeaders.entries := sentHeaders.entries[NatsHeaders.ContentTypeHeader := encoded.value.1];
      }
      if sentMsg.Object? {
        // the first codec raises on a body that is not bytes
        return sentMsg, sentHeaders, CompressionFailed;
      }
      var compressed := compressorHandler.Compress(sentMsg.data);
      if compressed.Err? {
        return sentMsg, sentHeaders, CompressionFailed;
      }
      sentMsg := RawBytes(compressed.value.0);
      sentHeaders.entries := sentHeaders.entries[NatsHeaders.ContentEncodingHeader := compressed.value.1.value];
      outcome := CompressedOk;
    }
  }
}
