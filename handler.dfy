/**
 The chain handlers: a compressor handler folds its codecs over a buffer and
 records their tags in order; a decompressor handler resolves each tag of an
 explicit list to its first registered codec and applies them in that order.
 */
module Handler {
  import opened Codecs
  import Builtins

  /** The tags of a chain, in chain order. */
  function Encodings(chain: seq<Codec>): (r: seq<string>)
    ensures |r| == |chain|
    ensures forall i :: 0 <= i < |chain| ==> r[i] == chain[i].encoding
  {
    seq(|chain|, i requires 0 <= i < |chain| => chain[i].encoding)
  }

  /** The `content-encoding` value a chain produces: its tags joined with
      `", "`, or nothing at all for an empty chain. */
  function HeaderValue(chain: seq<Codec>): (r: Option<string>)
    ensures r.None? <==> chain == []
  {
    if |chain| == 0 then None else Some(Builtins.Join(Encodings(chain), ", "))
  }

  /** The buffer a chain produces: each codec applied to the previous one's
      output, in chain order, stopping at the first codec that raises. */
  function Compressed(chain: seq<Codec>, data: Bytes): (r: Result<Bytes>)
    ensures chain == [] ==> r == Ok(data)
    ensures r.Err? ==> exists i :: 0 <= i < |chain| && r.failure == CodecFailed(chain[i].encoding)
    decreases |chain|
  {
    if |chain| == 0 then Ok(data)
    else
      match chain[0].Apply(data)
      case Err(f) => Err(f)
      case Ok(next) =>
        var r := Compressed(chain[1..], next);
        assert r.Err? ==> exists i :: 1 <= i < |chain| && r.failure == CodecFailed(chain[i].encoding) by {
          if r.Err? {
            var i :| 0 <= i < |chain| - 1 && r.failure == CodecFailed(chain[1..][i].encoding);
            assert chain[1..][i] == chain[i + 1];
          }
        }
        r
  }

  /** Running two chains one after the other is running their concatenation:
      the configured order is the order of application. */
  lemma {:induction false} CompressedAppend(a: seq<Codec>, b: seq<Codec>, data: Bytes)
    ensures Compressed(a + b, data) ==
      match Compressed(a, data)
      case Err(f) => Err(f)
      case Ok(mid) => Compressed(b, mid)
    decreases |a|
  {
    if |a| > 0 {
      assert (a + b)[0] == a[0];
      assert (a + b)[1..] == a[1..] + b;
      match a[0].Apply(data)
      case Err(_) =>
      case Ok(next) => CompressedAppend(a[1..], b, next);
    } else {
      assert a + b == b;
    }
  }

  /** `get_compressor`: the first codec, in configuration order, whose tag
      equals `encoding` exactly, or `UnknownEncoding(encoding)`. */
  function GetCompressor(compressors: seq<Codec>, encoding: string): (r: Result<Codec>)
    ensures r.Err? <==> forall i :: 0 <= i < |compressors| ==> compressors[i].encoding != encoding
    ensures r.Err? ==> r.failure == UnknownEncoding(encoding)
    ensures r.Ok? ==> r.value.encoding == encoding
    ensures r.Ok? ==> exists i :: 0 <= i < |compressors| && compressors[i] == r.value
    decreases |compressors|
  {
    if |compressors| == 0 then Err(UnknownEncoding(encoding))
    else if compressors[0].encoding == encoding then Ok(compressors[0])
    else
      var r := GetCompressor(compressors[1..], encoding);
      assert forall i :: 1 <= i < |compressors| ==> compressors[i] == compressors[1..][i - 1];
      r
  }

  /** The codec found is the FIRST match: a later codec with the same tag is
      never chosen. */
  lemma {:induction false} GetCompressorFirstMatch(compressors: seq<Codec>, encoding: string, k: nat)
    requires k < |compressors| && compressors[k].encoding == encoding
    requires forall j :: 0 <= j < k ==> compressors[j].encoding != encoding
    ensures GetCompressor(compressors, encoding) == Ok(compressors[k])
    decreases k
  {
    if k > 0 {
      GetCompressorFirstMatch(compressors[1..], encoding, k - 1);
    }
  }

  /** Codecs registered after a match do not change what a tag resolves to. */
  lemma {:induction false} GetCompressorIgnoresLater(compressors: seq<Codec>, later: seq<Codec>, encoding: string)
    requires GetCompressor(compressors, encoding).Ok?
    ensures GetCompressor(compressors + later, encoding) == GetCompressor(compressors, encoding)
    decreases |compressors|
  {
    assert (compressors + later)[0] == compressors[0];
    if compressors[0].encoding != encoding {
      assert (compressors + later)[1..] == compressors[1..] + later;
      GetCompressorIgnoresLater(compressors[1..], later, encoding);
    }
  }

  /** The buffer a decompressor set produces for a tag list: each tag resolved
      and applied in list order, stopping at the first tag that resolves to
      nothing or whose codec raises. */
  function Decompressed(decompressors: seq<Codec>, encodings: seq<string>, data: Bytes): (r: Result<Bytes>)
    ensures encodings == [] ==> r == Ok(data)
    ensures r.Err? ==> exists i :: 0 <= i < |encodings| && r.failure in {UnknownEncoding(encodings[i]), CodecFailed(encodings[i])}
    decreases |encodings|
  {
    if |encodings| == 0 then Ok(data)
    else
      match GetCompressor(decompressors, encodings[0])
      case Err(f) => Err(f)
      case Ok(codec) =>
        match codec.Apply(data)
        case Err(f) => Err(f)
        case Ok(next) =>
          var r := Decompressed(decompressors, encodings[1..], next);
          assert r.Err? ==> exists i :: 1 <= i < |encodings| && r.failure in {UnknownEncoding(encodings[i]), CodecFailed(encodings[i])} by {
            if r.Err? {
              var i :| 0 <= i < |encodings| - 1 && r.failure in {UnknownEncoding(encodings[1..][i]), CodecFailed(encodings[1..][i])};
              assert encodings[1..][i] == encodings[i + 1];
            }
          }
          r
  }

  lemma {:induction false} DecompressedAppend(decompressors: seq<Codec>, a: seq<string>, b: seq<string>, data: Bytes)
    ensures Decompressed(decompressors, a + b, data) ==
      match Decompressed(decompressors, a, data)
      case Err(f) => Err(f)
      case Ok(mid) => Decompressed(decompressors, b, mid)
    decreases |a|
  {
    if |a| > 0 {
      assert (a + b)[0] == a[0];
      assert (a + b)[1..] == a[1..] + b;
      match GetCompressor(decompressors, a[0])
      case Err(_) =>
      case Ok(codec) =>
        match codec.Apply(data)
        case Err(_) =>
        case Ok(next) => DecompressedAppend(decompressors, a[1..], b, next);
    } else {
      assert a + b == b;
    }
  }

  /** A tag that no registered decompressor carries. */
  predicate Unresolvable(decompressors: seq<Codec>, encoding: string) {
    forall i :: 0 <= i < |decompressors| ==> decompressors[i].encoding != encoding
  }

  /** When the k-th tag is the first unresolvable one, decompression fails, and
      the failure is either `UnknownEncoding` of that tag or a codec failure of
      a tag before it; no buffer comes out. */
  lemma {:induction false} DecompressedUnknownFails(decompressors: seq<Codec>, encodings: seq<string>, data: Bytes, k: nat)
    requires k < |encodings| && Unresolvable(decompressors, encodings[k])
    requires forall j :: 0 <= j < k ==> !Unresolvable(decompressors, encodings[j])
    ensures Decompressed(decompressors, encodings, data).Err?
    ensures var f := Decompressed(decompressors, encodings, data).failure;
      f == UnknownEncoding(encodings[k])
      || exists j :: 0 <= j < k && f == CodecFailed(encodings[j])
    decreases k
  {
    if k > 0 {
      var codec := GetCompressor(decompressors, encodings[0]);
      if codec.Ok? {
        match codec.value.Apply(data)
        case Err(_) =>
        case Ok(next) =>
          var rest := encodings[1..];
          assert forall j :: 0 <= j < k - 1 ==> rest[j] == encodings[j + 1];
          DecompressedUnknownFails(decompressors, rest, next, k - 1);
          var f := Decompressed(decompressors, rest, next).failure;
          if f != UnknownEncoding(rest[k - 1]) {
            var j :| 0 <= j < k - 1 && f == CodecFailed(rest[j]);
            assert f == CodecFailed(encodings[j + 1]);
          }
      }
    }
  }

  /** Conversely, a decompression that succeeds resolved every tag. */
  lemma {:induction false} DecompressedOkResolvesAll(decompressors: seq<Codec>, encodings: seq<string>, data: Bytes)
    requires Decompressed(decompressors, encodings, data).Ok?
    ensures forall i :: 0 <= i < |encodings| ==> !Unresolvable(decompressors, encodings[i])
    decreases |encodings|
  {
    if |encodings| > 0 {
      var codec := GetCompressor(decompressors, encodings[0]).value;
      DecompressedOkResolvesAll(decompressors, encodings[1..], codec.Apply(data).value);
      assert forall i :: 1 <= i < |encodings| ==> encodings[i] == encodings[1..][i - 1];
    }
  }

  /** Every codec of the chain has a registered decompressor, under its tag,
      that undoes it. */
  ghost predicate CanUndo(decompressors: seq<Codec>, chain: seq<Codec>) {
    forall i :: 0 <= i < |chain| ==>
      GetCompressor(decompressors, chain[i].encoding).Ok?
      && Inverts(GetCompressor(decompressors, chain[i].encoding).value, chain[i])
  }

  /** Round trip: decompressing the output of a chain with its tags in reverse
      order (last applied, first undone) gives back the input. */
  lemma {:induction false} DecompressReversedRoundTrip(decompressors: seq<Codec>, chain: seq<Codec>, data: Bytes)
    requires CanUndo(decompressors, chain)
    requires Compressed(chain, data).Ok?
    ensures Decompressed(decompressors, Builtins.Reversed(Encodings(chain)), Compressed(chain, data).value) == Ok(data)
    decreases |chain|
  {
    if |chain| > 0 {
      var c := chain[0];
      var rest := chain[1..];
      var mid := c.Apply(data).value;
      assert CanUndo(decompressors, rest) by {
        forall i | 0 <= i < |rest|
          ensures GetCompressor(decompressors, rest[i].encoding).Ok?
        {
          assert rest[i] == chain[i + 1];
        }
      }
      DecompressReversedRoundTrip(decompressors, rest, mid);
      var tags := Encodings(chain);
      assert tags[1..] == Encodings(rest);
      assert Builtins.Reversed(tags) == Builtins.Reversed(Encodings(rest)) + [c.encoding];
      DecompressedAppend(decompressors, Builtins.Reversed(Encodings(rest)), [c.encoding], Compressed(chain, data).value);
      assert GetCompressor(decompressors, chain[0].encoding).Ok?;
    }
  }

  /** `CompressorHandler`: a fixed chain of compressors. */
  class CompressorHandler {
    const compressors: seq<Codec>

    constructor(compressors: seq<Codec>)
      ensures this.compressors == compressors
    {
      this.compressors := compressors;
    }

    /** `__call__`: the chain's output and its `content-encoding` value, or the
        failure of the first codec that raised. */
    method Compress(data: Bytes) returns (r: Result<(Bytes, Option<string>)>)
      ensures r.Ok? <==> Compressed(compressors, data).Ok?
      ensures r.Ok? ==> r.value == (Compressed(compressors, data).value, HeaderValue(compressors))
      ensures r.Err? ==> r.failure == Compressed(compressors, data).failure
    {
      var encodings: seq<string> := [];
      var current := data;
      var i := 0;
      while i < |compressors|
        invariant 0 <= i <= |compressors|
        invariant encodings == Encodings(compressors[..i])
        invariant Compressed(compressors[i..], current) == Compressed(compressors, data)
      {
        encodings := encodings + [compressors[i].encoding];
        var out := compressors[i].Apply(current);
        if out.Err? {
          return Err(out.failure);
        }
        current := out.value;
        i := i + 1;
      }
      assert compressors[..i] == compressors;
      var header := if |encodings| > 0 then Some(Builtins.Join(encodings, ", ")) else None;
      return Ok((current, header));
    }
  }

  /** `DecompressorHandler`: the registered decompressors, looked up by tag. */
  class DecompressorHandler {
    const decompressors: seq<Codec>

    constructor(decompressors: seq<Codec>)
      ensures this.decompressors == decompressors
    {
      this.decompressors := decompressors;
    }

    /** `__call__`: applies the codecs for `encodings` in the order given. */
    method Decompress(data: Bytes, encodings: seq<string>) returns (r: Result<Bytes>)
      ensures r == Decompressed(decompressors, encodings, data)
    {
      var current := data;
      var i := 0;
      while i < |encodings|
        invariant 0 <= i <= |encodings|
        invariant Decompressed(decompressors, encodings[i..], current) == Decompressed(decompressors, encodings, data)
      {
        var codec := GetCompressor(decompressors, encodings[i]);
        if codec.Err? {
          return Err(codec.failure);
        }
        var out := codec.value.Apply(current);
        if out.Err? {
          return Err(out.failure);
        }
        current := out.value;
        i := i + 1;
      }
      return Ok(current);
    }
  }
}
