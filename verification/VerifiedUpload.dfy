/** What both content stores promise of an upload: the size is checked first, then the hash. */
module VerifiedUpload {
  import opened Common
  import opened Upload

  /** What a reader delivers: some chunks, then the end of the body or an error. */
  datatype Body = Body(chunks: seq<Bytes>, fails: bool)

  /** The bytes of the chunks, in order. */
  function Joined(chunks: seq<Bytes>): Bytes {
    if chunks == [] then [] else Joined(chunks[..|chunks| - 1]) + chunks[|chunks| - 1]
  }

  /** The verdict on the bytes received. */
  function Judge(h: Hash, oid: string, size: int, data: Bytes): Outcome {
    if |data| != size then SizeMismatch else if h(data) != oid then HashMismatch else Accepted
  }

  /** The store after an upload with that verdict. */
  function Stored(contents: map<string, Bytes>, oid: string, data: Bytes, outcome: Outcome): map<string, Bytes> {
    if outcome == Accepted then contents[oid := data] else contents
  }

  /** The bytes have the declared size and match the oid. */
  predicate Matches(h: Hash, oid: string, size: int, data: Bytes) {
    |data| == size && h(data) == oid
  }
}
