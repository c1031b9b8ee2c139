/**
  The decode-outcome classifier of bsonsplit (`process_doc`) and the view of the
  input file as the stream of outcomes that successive decode attempts produce.

  BSON decoding itself is not modelled: a document is an opaque value of type `D`,
  and the input file is the sequence of results that `Document::from_reader`
  returns, one per attempt, in order.
 */
module Decode {
  import opened Errors

  /** The outcome of one decode attempt: a document, an I/O error, or any other BSON error. */
  datatype DecodeResult<D> = Decoded(doc: D) | IoFailure(kind: IoKind) | Malformed

  /**
    `process_doc`: a decoded document is passed on unchanged, an I/O error of kind
    `UnexpectedEof` means the stream is over, and everything else is fatal.
    An end of file in the middle of a document is not told apart from one at a
    document boundary: both arrive as `UnexpectedEof`.
   */
  function ProcessDoc<D>(res: DecodeResult<D>): (r: Result<Option<D>, Error>)
    ensures r.Ok? && r.value.Some? <==> res.Decoded?
    ensures res.Decoded? ==> r.value.value == res.doc
    ensures r == Ok(None) <==> res == IoFailure(UnexpectedEof)
    ensures r.Err? <==> res.Malformed? || (res.IoFailure? && res.kind != UnexpectedEof)
    ensures res.IoFailure? && res.kind != UnexpectedEof ==> r == Err(IoError(res.kind))
    ensures res.Malformed? ==> r == Err(BsonError)
  {
    match res
    case Decoded(doc) => Ok(Some(doc))
    case IoFailure(kind) =>
      if kind == UnexpectedEof then Ok(None) else Err(IoError(kind))
    case Malformed => Err(BsonError)
  }

  /** The outcome of the `k`-th decode attempt; an exhausted reader reports `UnexpectedEof`. */
  function Next<D>(input: seq<DecodeResult<D>>, k: nat): DecodeResult<D>
  {
    if k < |input| then input[k] else IoFailure(UnexpectedEof)
  }

  /** The documents decoded before the first attempt that does not yield one, in input order. */
  function Documents<D>(input: seq<DecodeResult<D>>): (docs: seq<D>)
    ensures |docs| <= |input|
    ensures forall k :: 0 <= k < |docs| ==> input[k] == Decoded(docs[k])
    ensures |docs| < |input| ==> !input[|docs|].Decoded?
  {
    if input == [] || !input[0].Decoded? then []
    else [input[0].doc] + Documents(input[1..])
  }

  /** What `process_doc` makes of the first attempt that yields no document: the end or an error. */
  function Ending<D>(input: seq<DecodeResult<D>>): (r: Result<Option<D>, Error>)
    ensures r == Ok(None) || r.Err?
    ensures r == Ok(None) <==> Next(input, |Documents(input)|) == IoFailure(UnexpectedEof)
  {
    ProcessDoc(Next(input, |Documents(input)|))
  }

  /** A stream that holds nothing but decodable documents ends cleanly, after all of them. */
  lemma AllDocumentsEndCleanly<D>(input: seq<DecodeResult<D>>)
    requires forall k :: 0 <= k < |input| ==> input[k].Decoded?
    ensures |Documents(input)| == |input|
    ensures Ending(input) == Ok(None)
  {
  }

  /**
    Decode attempts in order: each of the first `|Documents(input)|` yields its document,
    and the next one yields the stream's ending.
   */
  lemma ProcessNext<D>(input: seq<DecodeResult<D>>, k: nat)
    requires k <= |Documents(input)|
    ensures ProcessDoc(Next(input, k)) ==
      if k < |Documents(input)| then Ok(Some(Documents(input)[k])) else Ending(input)
  {
  }
}
