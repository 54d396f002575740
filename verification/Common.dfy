/** Types shared by every component, and the concatenation of a list of byte strings. */
module Common {

  datatype Option<+T> = None | Some(value: T)

  datatype Result<+T, +E> = Ok(value: T) | Err(error: E)

  type Bytes = seq<bv8>

  const MAX_I32: int := 0x7FFF_FFFF
  const MAX_I64: int := 0x7FFF_FFFF_FFFF_FFFF

  /** The bytes of `chunks`, one after the other. */
  function Flat(chunks: seq<Bytes>): Bytes {
    if chunks == [] then [] else Flat(chunks[..|chunks| - 1]) + chunks[|chunks| - 1]
  }

  lemma FlatSnoc(chunks: seq<Bytes>, chunk: Bytes)
    ensures Flat(chunks + [chunk]) == Flat(chunks) + chunk
  {
    assert (chunks + [chunk])[..|chunks|] == chunks;
  }

  lemma {:induction false} FlatBound(chunks: seq<Bytes>, limit: nat)
    requires forall i :: 0 <= i < |chunks| ==> |chunks[i]| <= limit
    ensures |Flat(chunks)| <= |chunks| * limit
  {
    if chunks != [] {
      FlatBound(chunks[..|chunks| - 1], limit);
      assert |chunks| * limit == (|chunks| - 1) * limit + limit;
    }
  }

  lemma {:induction false} FlatPrefix(chunks: seq<Bytes>, n: nat)
    requires n <= |chunks|
    ensures |Flat(chunks[..n])| <= |Flat(chunks)|
  {
    if n < |chunks| {
      FlatPrefix(chunks[..|chunks| - 1], n);
      assert chunks[..|chunks| - 1][..n] == chunks[..n];
    } else {
      assert chunks[..n] == chunks;
    }
  }
}
