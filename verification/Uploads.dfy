/**
 The reference model of one upload session: the list of byte strings accepted so far and a
 status. It has no offsets, part numbers or stored part sizes; module Sessions proves that the
 row of counters the server really keeps, together with the multipart upload in the bucket,
 behaves exactly like this list.
 */
module Uploads {
  import opened Common

  datatype Status = Uploading | Finalizing | Committed | Failed | Cancelled

  datatype Upload = Upload(chunks: seq<Bytes>, status: Status)

  /** A Content-Range header after parsing (see module Ranges). */
  datatype ContentRange = Absent | Malformed | Range(start: int, end: int)

  datatype Refusal =
    | TooLarge
    | EmptyPatch
    | Unavailable
    | BadRange
    | WrongOffset
    | ShortPartAccepted
    | LargerThanFirst
    | PartNumbersExhausted
    | StoreFailed
    | DatabaseFailed

  function Offset(u: Upload): nat {
    |Flat(u.chunks)|
  }

  /** `validate_content_range` once the two numbers are known. */
  function RangeRefusal(range: ContentRange, expected: int, length: nat): Option<Refusal> {
    match range
    case Absent => None
    case Malformed => Some(BadRange)
    case Range(start, end) =>
      if start != expected || (length > 0 && end != start + length - 1) || (length == 0 && end >= start)
      then Some(WrongOffset)
      else None
  }

  /** A chunk shorter than the first one has been accepted: nothing may follow it. */
  predicate ShortTail(chunks: seq<Bytes>) {
    chunks != [] && |chunks[|chunks| - 1]| < |chunks[0]|
  }

  /** The size rule PATCH and PUT share. */
  function SizeRefusal(chunks: seq<Bytes>, body: Bytes): Option<Refusal> {
    if ShortTail(chunks) then Some(ShortPartAccepted)
    else if chunks != [] && |body| > |chunks[0]| then Some(LargerThanFirst)
    else if |chunks| + 2 > MAX_I32 then Some(PartNumbersExhausted)
    else None
  }

  /** The first guard of `patch_upload` that fails, if any. */
  function PatchRefusal(u: Upload, expired: bool, limit: nat, range: ContentRange, body: Bytes): Option<Refusal> {
    if |body| > limit then Some(TooLarge)
    else if body == [] then Some(EmptyPatch)
    else if u.status != Uploading || expired then Some(Unavailable)
    else if RangeRefusal(range, Offset(u), |body|).Some? then RangeRefusal(range, Offset(u), |body|)
    else SizeRefusal(u.chunks, body)
  }

  function Patch(u: Upload, expired: bool, limit: nat, range: ContentRange, body: Bytes): Upload {
    if PatchRefusal(u, expired, limit, range, body).Some? then u else u.(chunks := u.chunks + [body])
  }

  /** The first guard of `complete_upload` that fails before the session leaves `uploading`. */
  function PutRefusal(u: Upload, expired: bool, limit: nat, range: ContentRange, body: Bytes): Option<Refusal> {
    if |body| > limit then Some(TooLarge)
    else if u.status != Uploading || expired then Some(Unavailable)
    else if RangeRefusal(range, Offset(u), |body|).Some? then RangeRefusal(range, Offset(u), |body|)
    else if body == [] then None
    else SizeRefusal(u.chunks, body)
  }

  function WithTail(chunks: seq<Bytes>, body: Bytes): seq<Bytes> {
    if body == [] then chunks else chunks + [body]
  }

  /** The transaction of `complete_upload`: append the last chunk and close the session to parts. */
  function Put(u: Upload, expired: bool, limit: nat, range: ContentRange, body: Bytes): Upload {
    if PutRefusal(u, expired, limit, range, body).Some? then u
    else Upload(WithTail(u.chunks, body), Finalizing)
  }

  /** The shape R2 asks of a multipart upload: equal parts, and a last one that is no larger. */
  ghost predicate Uniform(chunks: seq<Bytes>, limit: nat) {
    && (forall i :: 0 <= i < |chunks| ==> 0 < |chunks[i]| <= limit)
    && (forall i :: 0 <= i < |chunks| - 1 ==> |chunks[i]| == |chunks[0]|)
    && (chunks != [] ==> |chunks[|chunks| - 1]| <= |chunks[0]|)
    && |chunks| + 1 <= MAX_I32
  }

  /** The size rule keeps the shape, and without it the shape would be lost. */
  lemma AcceptedIffUniform(chunks: seq<Bytes>, limit: nat, body: Bytes)
    requires Uniform(chunks, limit)
    requires 0 < |body| <= limit
    ensures SizeRefusal(chunks, body).None? <==> Uniform(chunks + [body], limit)
  {
    var longer := chunks + [body];
    assert longer[|chunks|] == body;
    assert forall i :: 0 <= i < |chunks| ==> longer[i] == chunks[i];
    assert Uniform(longer, limit) && chunks != [] ==> |longer[|chunks| - 1]| == |longer[0]|;
  }

  lemma PatchKeepsUniform(u: Upload, expired: bool, limit: nat, range: ContentRange, body: Bytes)
    requires Uniform(u.chunks, limit)
    ensures Uniform(Patch(u, expired, limit, range, body).chunks, limit)
    ensures Uniform(Put(u, expired, limit, range, body).chunks, limit)
  {
    if 0 < |body| <= limit {
      AcceptedIffUniform(u.chunks, limit, body);
    }
  }

  /** The header, if there is one, names exactly the bytes from `offset` on. */
  predicate NamesNext(range: ContentRange, offset: nat, length: nat) {
    match range
    case Absent => true
    case Malformed => false
    case Range(start, end) => start == offset && if length > 0 then end - start + 1 == length else end < start
  }

  /**
   A PATCH is accepted exactly by an open, unexpired session, if it brings at least one byte and no
   more than the limit, names the next bytes, and leaves the parts in shape. To any other session it
   is unavailable.
   */
  lemma PatchAcceptedIff(u: Upload, expired: bool, limit: nat, range: ContentRange, body: Bytes)
    requires Uniform(u.chunks, limit)
    ensures PatchRefusal(u, expired, limit, range, body).None? <==>
            && u.status == Uploading && !expired && 0 < |body| <= limit
            && NamesNext(range, |Flat(u.chunks)|, |body|) && Uniform(u.chunks + [body], limit)
    ensures 0 < |body| <= limit && (u.status != Uploading || expired) ==>
              PatchRefusal(u, expired, limit, range, body) == Some(Unavailable)
    ensures PatchRefusal(u, expired, limit, range, body).None? ==>
              Patch(u, expired, limit, range, body) == Upload(u.chunks + [body], Uploading)
  {
    if 0 < |body| <= limit {
      AcceptedIffUniform(u.chunks, limit, body);
    }
    hide Uniform, SizeRefusal, Flat;
  }

  /** The same for a final PUT, which may bring nothing. */
  lemma PutAcceptedIff(u: Upload, expired: bool, limit: nat, range: ContentRange, body: Bytes)
    requires Uniform(u.chunks, limit)
    ensures PutRefusal(u, expired, limit, range, body).None? <==>
            && u.status == Uploading && !expired && |body| <= limit
            && NamesNext(range, |Flat(u.chunks)|, |body|) && (body == [] || Uniform(u.chunks + [body], limit))
    ensures |body| <= limit && (u.status != Uploading || expired) ==>
              PutRefusal(u, expired, limit, range, body) == Some(Unavailable)
    ensures PutRefusal(u, expired, limit, range, body).None? ==>
              Put(u, expired, limit, range, body)
              == Upload(if body == [] then u.chunks else u.chunks + [body], Finalizing)
  {
    if 0 < |body| <= limit {
      AcceptedIffUniform(u.chunks, limit, body);
    }
    hide Uniform, SizeRefusal, Flat;
  }

  /** offset = (n - 1) * uniform + last: the counters of the session row determine each other. */
  lemma {:induction false} UniformOffset(chunks: seq<Bytes>, limit: nat)
    requires Uniform(chunks, limit) && chunks != []
    ensures |Flat(chunks)| == (|chunks| - 1) * |chunks[0]| + |chunks[|chunks| - 1]|
  {
    var front := chunks[..|chunks| - 1];
    if front != [] {
      UniformOffset(front, limit);
      assert |front[|front| - 1]| == |chunks[0]|;
      assert (|front| - 1) * |chunks[0]| + |chunks[0]| == |front| * |chunks[0]|;
    }
  }

  /**
   With a chunk limit below 2^32 and part numbers that fit 32 bits, the 64-bit offset of a
   session, and the same offset with one more chunk added, cannot overflow.
   */
  lemma OffsetsFit(chunks: seq<Bytes>, limit: nat)
    requires Uniform(chunks, limit) && limit < 0x1_0000_0000
    ensures |Flat(chunks)| + limit <= MAX_I64
  {
    FlatBound(chunks, limit);
    ProductBound(|chunks|, limit);
  }

  lemma ProductBound(n: nat, limit: nat)
    requires n + 1 <= MAX_I32 && limit < 0x1_0000_0000
    ensures n * limit + limit <= MAX_I64
  {
    MulMonotone(n + 1, MAX_I32, limit);
  }

  lemma MulMonotone(a: nat, b: nat, c: nat)
    requires a <= b
    ensures a * c <= b * c
  {
  }
}
