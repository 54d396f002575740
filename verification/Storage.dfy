/**
 The bucket behind `BlobStore`: finished objects, and multipart uploads that are still open.
 One multipart upload exists per object key, because every session has a key of its own.
 */
module Storage {
  import opened Common
  import opened Digests

  type Key = string
  type ETag = string

  datatype CompletedPart = CompletedPart(partNumber: int, etag: ETag, size: int)

  /** What can happen to one call over the network: nothing, no effect at all, or a lost reply. */
  datatype Fault = Fine | LostRequest | LostReply

  /** Every listed part is stored under its number with its tag. */
  predicate PartsPresent(pending: map<int, Bytes>, parts: seq<CompletedPart>, tag: Bytes -> ETag) {
    forall i :: 0 <= i < |parts| ==>
      parts[i].partNumber in pending && tag(pending[parts[i].partNumber]) == parts[i].etag
  }

  /** The bytes stored under the listed part numbers, in the listed order. */
  function ListedBytes(pending: map<int, Bytes>, parts: seq<CompletedPart>): (chunks: seq<Bytes>)
    requires forall i :: 0 <= i < |parts| ==> parts[i].partNumber in pending
    ensures |chunks| == |parts|
    ensures forall i :: 0 <= i < |parts| ==> chunks[i] == pending[parts[i].partNumber]
  {
    seq(|parts|, i requires 0 <= i < |parts| => pending[parts[i].partNumber])
  }

  class Bucket {
    const tag: Bytes -> ETag
    var objects: map<Key, Bytes>
    var uploads: map<Key, map<int, Bytes>>

    constructor (tag: Bytes -> ETag)
      ensures this.tag == tag && objects == map[] && uploads == map[]
    {
      this.tag := tag;
      objects := map[];
      uploads := map[];
    }

    method InitiateUpload(key: Key, fault: Fault) returns (ok: bool)
      modifies this`uploads
      ensures ok == fault.Fine?
      ensures uploads == if fault.LostRequest? then old(uploads) else old(uploads)[key := map[]]
    {
      if fault.LostRequest? { return false; }
      uploads := uploads[key := map[]];
      return fault.Fine?;
    }

    /** A part number used twice keeps the later bytes. */
    method UploadPart(key: Key, partNumber: int, bytes: Bytes, fault: Fault) returns (r: Option<CompletedPart>)
      modifies this`uploads
      ensures r == if key in old(uploads) && fault.Fine?
                   then Some(CompletedPart(partNumber, tag(bytes), |bytes|)) else None
      ensures uploads == if key !in old(uploads) || fault.LostRequest? then old(uploads)
                         else old(uploads)[key := old(uploads)[key][partNumber := bytes]]
    {
      if key !in uploads || fault.LostRequest? { return None; }
      uploads := uploads[key := uploads[key][partNumber := bytes]];
      return if fault.Fine? then Some(CompletedPart(partNumber, tag(bytes), |bytes|)) else None;
    }

    /** The listed parts, in the listed order, become the object; parts not listed are dropped. */
    method CompleteUpload(key: Key, parts: seq<CompletedPart>, fault: Fault) returns (ok: bool)
      modifies this
      ensures ok == (Completes(old(uploads), key, parts) && fault.Fine?)
      ensures Completes(old(uploads), key, parts) && !fault.LostRequest? ==>
                && uploads == old(uploads) - {key}
                && objects == old(objects)[key := Flat(ListedBytes(old(uploads)[key], parts))]
      ensures !Completes(old(uploads), key, parts) || fault.LostRequest? ==>
                uploads == old(uploads) && objects == old(objects)
    {
      if key !in uploads || fault.LostRequest? || parts == [] { return false; }
      var pending := uploads[key];
      var chunks: seq<Bytes> := [];
      for i := 0 to |parts|
        invariant PartsPresent(pending, parts[..i], tag)
        invariant |chunks| == i
        invariant forall j :: 0 <= j < i ==> parts[j].partNumber in pending && chunks[j] == pending[parts[j].partNumber]
      {
        var part := parts[i];
        if part.partNumber !in pending || tag(pending[part.partNumber]) != part.etag { return false; }
        chunks := chunks + [pending[part.partNumber]];
      }
      assert parts[..|parts|] == parts;
      assert chunks == ListedBytes(pending, parts);
      objects := objects[key := Flat(chunks)];
      uploads := uploads - {key};
      return fault.Fine?;
    }

    predicate Completes(open: map<Key, map<int, Bytes>>, key: Key, parts: seq<CompletedPart>) {
      key in open && parts != [] && PartsPresent(open[key], parts, tag)
    }

    method AbortUpload(key: Key, fault: Fault) returns (ok: bool)
      modifies this`uploads
      ensures ok == (key in old(uploads) && fault.Fine?)
      ensures uploads == if fault.LostRequest? then old(uploads) else old(uploads) - {key}
    {
      if fault.LostRequest? { return false; }
      ok := key in uploads && fault.Fine?;
      uploads := uploads - {key};
    }

    method Put(key: Key, bytes: Bytes, fault: Fault) returns (ok: bool)
      modifies this`objects
      ensures ok == fault.Fine?
      ensures objects == if fault.LostRequest? then old(objects) else old(objects)[key := bytes]
    {
      if fault.LostRequest? { return false; }
      objects := objects[key := bytes];
      return fault.Fine?;
    }

    method Exists(key: Key, fails: bool) returns (r: Option<bool>)
      ensures r == if fails then None else Some(key in objects)
    {
      return if fails then None else Some(key in objects);
    }

    /** The object arrives in pieces, cut wherever the network cut it. */
    method Stream(key: Key, cut: nat, fails: bool) returns (r: Option<seq<Bytes>>)
      ensures r.Some? <==> key in objects && !fails
      ensures r.Some? ==> Flat(r.value) == objects[key]
    {
      if fails || key !in objects { return None; }
      var bytes := objects[key];
      var at := if cut <= |bytes| then cut else |bytes|;
      FlatSnoc([], bytes[..at]);
      FlatSnoc([bytes[..at]], bytes[at..]);
      assert [] + [bytes[..at]] == [bytes[..at]];
      assert bytes[..at] + bytes[at..] == bytes;
      return Some([bytes[..at]] + [bytes[at..]]);
    }

    /** Deleting an absent object succeeds; a delete that reports failure leaves the object. */
    method Delete(key: Key, fails: bool) returns (ok: bool)
      modifies this`objects
      ensures ok == !fails
      ensures objects == if fails then old(objects) else old(objects) - {key}
    {
      if fails { return false; }
      objects := objects - {key};
      return true;
    }
  }

  /** `hash_stored_blob`: digest and size of an object, added up over the stream. */
  method HashStoredBlob(bucket: Bucket, hash: Bytes -> Digest, key: Key, cut: nat, fails: bool)
      returns (r: Option<(Digest, int)>)
    ensures r.Some? ==> key in bucket.objects && r.value == (hash(bucket.objects[key]), |bucket.objects[key]|)
    ensures r.None? <==> key !in bucket.objects || fails || |bucket.objects[key]| > MAX_I64
  {
    var stream := bucket.Stream(key, cut, fails);
    if stream.None? { return None; }
    var size := 0;
    var hasher: Bytes := [];
    for i := 0 to |stream.value|
      invariant hasher == Flat(stream.value[..i]) && size == |hasher| <= MAX_I64
    {
      FlatSnoc(stream.value[..i], stream.value[i]);
      assert stream.value[..i] + [stream.value[i]] == stream.value[..i + 1];
      FlatPrefix(stream.value, i + 1);
      if size + |stream.value[i]| > MAX_I64 { return None; }
      size := size + |stream.value[i]|;
      hasher := hasher + stream.value[i];
    }
    assert stream.value[..|stream.value|] == stream.value;
    return Some((hash(hasher), size));
  }
}
