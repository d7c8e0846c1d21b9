/**
 The codec interface (`BaseCompressor`) and the failures the chain can end in.
 A codec is a tag plus a one-directional byte transform; gzip, lzma and lz4
 are instances whose transforms are not modelled.
 */
module Codecs {

  type Bytes = seq<bv8>

  datatype Option<+T> = None | Some(value: T)

  /** Why a chain stopped: a tag with no registered codec (`UnknownEncoding`),
      or a codec's transform raised on its input. */
  datatype Failure =
    | UnknownEncoding(encoding: string)
    | CodecFailed(encoding: string)

  datatype Result<+T> = Ok(value: T) | Err(failure: Failure)

  /** A `BaseCompressor`: its `ENCODING` tag and its `__call__`. The transform
      gives `None` where the underlying library raises. */
  datatype Codec = Codec(encoding: string, transform: Bytes -> Option<Bytes>)
  {
    /** Calls the codec, turning a raised exception into a failure naming it. */
    function Apply(data: Bytes): (r: Result<Bytes>)
      ensures r.Ok? <==> transform(data).Some?
      ensures r.Ok? ==> r.value == transform(data).value
      ensures r.Err? ==> r.failure == CodecFailed(encoding)
    {
      match transform(data)
      case None => Err(CodecFailed(encoding))
      case Some(out) => Ok(out)
    }
  }

  /** `d` undoes `c`: whatever `c` produces from `x`, `d` turns back into `x`.
      This is what a scheme's decompressor promises about its compressor. */
  ghost predicate Inverts(d: Codec, c: Codec) {
    forall x :: c.transform(x).Some? ==> d.transform(c.transform(x).value) == Some(x)
  }
}
