/**
 One upload session as the server keeps it: a row of counters, a table of stored parts, and a
 multipart upload in the bucket. `chunks` is the list of byte strings the row stands for; every
 method is proved to act on that list as module Uploads prescribes, whatever call to the bucket
 or the database fails on the way.
 */
module Sessions {
  import opened Common
  import opened Storage
  import opened Uploads

  datatype PartRow = PartRow(etag: ETag, size: int)

  /** `upload_parts` holds exactly rows 1 to n, one for each accepted chunk. */
  ghost predicate PartsTable(parts: map<int, PartRow>, chunks: seq<Bytes>, tag: Bytes -> ETag) {
    && (forall i :: i in parts <==> 1 <= i <= |chunks|)
    && (forall i :: 1 <= i <= |chunks| ==> parts[i] == PartRow(tag(chunks[i - 1]), |chunks[i - 1]|))
  }

  /** The bucket holds the accepted chunks, and at most one orphan, under the next part number. */
  ghost predicate PartsStored(pending: map<int, Bytes>, chunks: seq<Bytes>) {
    && (forall i :: 1 <= i <= |chunks| ==> i in pending && pending[i] == chunks[i - 1])
    && (forall i :: i in pending ==> 1 <= i <= |chunks| + 1)
  }

  /** The row's counters and the part table say how many bytes are in which parts. */
  ghost predicate Counters(offset: int, next: int, uniform: Option<int>, parts: map<int, PartRow>,
                           chunks: seq<Bytes>, limit: nat, tag: Bytes -> ETag)
  {
    && limit < 0x1_0000_0000
    && offset == |Flat(chunks)|
    && next == |chunks| + 1
    && (uniform.Some? ==> chunks != [] && uniform.value == |chunks[0]|)
    && PartsTable(parts, chunks, tag)
    && Uniform(chunks, limit)
  }

  lemma PartNumberFollows(offset: int, next: int, uniform: Option<int>, parts: map<int, PartRow>, chunks: seq<Bytes>,
                          limit: nat, tag: Bytes -> ETag)
    requires Counters(offset, next, uniform, parts, chunks, limit, tag)
    ensures next == |chunks| + 1
  {
  }

  lemma CountersSnoc(offset: int, next: int, uniform: Option<int>, parts: map<int, PartRow>,
                     chunks: seq<Bytes>, limit: nat, tag: Bytes -> ETag, body: Bytes, establish: bool)
    requires Counters(offset, next, uniform, parts, chunks, limit, tag)
    requires 0 < |body| <= limit && SizeRefusal(chunks, body).None?
    requires establish && chunks != [] ==> uniform.Some?
    ensures Counters(offset + |body|, next + 1, if establish && uniform.None? then Some(|body|) else uniform,
                     parts[next := PartRow(tag(body), |body|)], chunks + [body], limit, tag)
    ensures offset + |body| <= MAX_I64
  {
    AcceptedIffUniform(chunks, limit, body);
    OffsetsFit(chunks, limit);
    FlatSnoc(chunks, body);
    PartsTableSnoc(parts, chunks, tag, body);
    assert chunks != [] ==> (chunks + [body])[0] == chunks[0];
    hide PartsTable, Uniform;
  }

  lemma PartsTableSnoc(parts: map<int, PartRow>, chunks: seq<Bytes>, tag: Bytes -> ETag, body: Bytes)
    requires PartsTable(parts, chunks, tag)
    ensures PartsTable(parts[|chunks| + 1 := PartRow(tag(body), |body|)], chunks + [body], tag)
  {
  }

  /** The rows of `upload_parts` name exactly the accepted chunks in the bucket. */
  lemma RowsNameChunks(pending: map<int, Bytes>, chunks: seq<Bytes>, rows: seq<CompletedPart>, tag: Bytes -> ETag)
    requires PartsStored(pending, chunks) && |rows| == |chunks|
    requires forall i :: 0 <= i < |rows| ==> rows[i] == CompletedPart(i + 1, tag(chunks[i]), |chunks[i]|)
    ensures PartsPresent(pending, rows, tag) && ListedBytes(pending, rows) == chunks
  {
  }

  class UploadSession {
    const key: Key
    const expiresAt: int
    const limit: nat
    const bucket: Bucket

    var acceptedOffset: int
    var nextPartNumber: int
    var uniformPartSize: Option<int>
    var status: Status
    var parts: map<int, PartRow>

    ghost var chunks: seq<Bytes>

    ghost function Abs(): Upload
      reads this
    {
      Upload(chunks, status)
    }

    ghost predicate Valid()
      reads this, bucket
    {
      && Counters(acceptedOffset, nextPartNumber, uniformPartSize, parts, chunks, limit, bucket.tag)
      && (status.Uploading? && chunks != [] ==> uniformPartSize.Some?)
      && (key in bucket.uploads ==> PartsStored(bucket.uploads[key], chunks))
    }

    /** `start_upload`: the multipart upload is opened before the row is inserted. */
    constructor (key: Key, expiresAt: int, limit: nat, bucket: Bucket)
      requires limit < 0x1_0000_0000
      requires key in bucket.uploads && bucket.uploads[key] == map[]
      ensures Valid() && Abs() == Upload([], Uploading)
      ensures this.key == key && this.bucket == bucket && this.limit == limit && this.expiresAt == expiresAt
    {
      this.key := key;
      this.expiresAt := expiresAt;
      this.limit := limit;
      this.bucket := bucket;
      acceptedOffset := 0;
      nextPartNumber := 1;
      uniformPartSize := None;
      status := Uploading;
      parts := map[];
      chunks := [];
    }

    /** The size of the last row in part-number order, as the sub-select in `lock_upload` reads it. */
    method LastPartSize() returns (size: Option<int>)
      requires Counters(acceptedOffset, nextPartNumber, uniformPartSize, parts, chunks, limit, bucket.tag)
      ensures size == if chunks == [] then None else Some(|chunks[|chunks| - 1]|)
    {
      size := None;
      var i := 0;
      while i + 1 in parts
        invariant 0 <= i <= |chunks|
        invariant size == if i == 0 then None else Some(|chunks[i - 1]|)
        decreases |chunks| - i
      {
        i := i + 1;
        size := Some(parts[i].size);
      }
    }

    /** The size rule of `patch_upload` and `complete_upload`, on the stored counters. */
    method CheckSize(body: Bytes) returns (refusal: Option<Refusal>)
      requires Valid() && status.Uploading?
      ensures refusal == if ShortTail(chunks) then Some(ShortPartAccepted)
                         else if chunks != [] && |body| > |chunks[0]| then Some(LargerThanFirst)
                         else None
    {
      var last := LastPartSize();
      if uniformPartSize.Some? {
        if last.Some? && last.value < uniformPartSize.value { return Some(ShortPartAccepted); }
        if |body| > uniformPartSize.value { return Some(LargerThanFirst); }
      }
      return None;
    }

    /**
     `persist_part`: insert the part row and advance the counters, in the caller's transaction.
     The 32-bit part number is the only counter that can run out; the 64-bit offset cannot.
     */
    method PersistPart(part: CompletedPart, establishUniformSize: bool, ghost body: Bytes) returns (ok: bool)
      requires Counters(acceptedOffset, nextPartNumber, uniformPartSize, parts, chunks, limit, bucket.tag)
      requires 0 < |body| <= limit && SizeRefusal(chunks, body) in {None, Some(PartNumbersExhausted)}
      requires part == CompletedPart(nextPartNumber, bucket.tag(body), |body|)
      requires establishUniformSize && chunks != [] ==> uniformPartSize.Some?
      modifies this
      ensures ok == SizeRefusal(old(chunks), body).None?
      ensures !ok ==> unchanged(this)
      ensures ok ==> Counters(acceptedOffset, nextPartNumber, uniformPartSize, parts, chunks, limit, bucket.tag)
      ensures ok ==> chunks == old(chunks) + [body] && status == old(status) && acceptedOffset <= MAX_I64
      ensures uniformPartSize == if ok && establishUniformSize && old(uniformPartSize).None?
                                 then Some(|body|) else old(uniformPartSize)
    {
      hide Counters, Flat, ShortTail;
      PartNumberFollows(acceptedOffset, nextPartNumber, uniformPartSize, parts, chunks, limit, bucket.tag);
      if nextPartNumber + 1 > MAX_I32 { return false; }
      CountersSnoc(acceptedOffset, nextPartNumber, uniformPartSize, parts, chunks, limit, bucket.tag, body,
          establishUniformSize);
      parts := parts[part.partNumber := PartRow(part.etag, part.size)];
      acceptedOffset := acceptedOffset + part.size;
      nextPartNumber := nextPartNumber + 1;
      if establishUniformSize && uniformPartSize.None? {
        uniformPartSize := Some(part.size);
      }
      chunks := chunks + [body];
      return true;
    }

    /** `validate_upload`. */
    predicate Unavailable(now: int)
      reads this
    {
      status != Uploading || expiresAt <= now
    }

    /**
     The part of PATCH and PUT both run inside their transaction: store the bytes under the next
     part number, then record them. If the bucket or the database fails, no row has changed; the
     bucket may keep an orphan, but only under the next part number, where a retry overwrites it.
     */
    method StorePart(body: Bytes, establishUniformSize: bool, fault: Fault, dbFails: bool)
        returns (refusal: Option<Refusal>)
      requires Counters(acceptedOffset, nextPartNumber, uniformPartSize, parts, chunks, limit, bucket.tag)
      requires key in bucket.uploads ==> PartsStored(bucket.uploads[key], chunks)
      requires 0 < |body| <= limit && SizeRefusal(chunks, body) in {None, Some(PartNumbersExhausted)}
      requires establishUniformSize && chunks != [] ==> uniformPartSize.Some?
      modifies this, bucket`uploads
      ensures bucket.uploads - {key} == old(bucket.uploads) - {key}
      ensures key in bucket.uploads <==> key in old(bucket.uploads)
      ensures key in bucket.uploads ==> PartsStored(bucket.uploads[key], chunks)
      ensures Counters(acceptedOffset, nextPartNumber, uniformPartSize, parts, chunks, limit, bucket.tag)
      ensures uniformPartSize == if refusal.None? && establishUniformSize && old(uniformPartSize).None?
                                 then Some(|body|) else old(uniformPartSize)
      ensures status == old(status) && acceptedOffset == |Flat(chunks)|
      ensures chunks == if refusal.None? then old(chunks) + [body] else old(chunks)
      ensures refusal == if key !in old(bucket.uploads) || !fault.Fine? then Some(StoreFailed)
                         else if dbFails then Some(DatabaseFailed)
                         else SizeRefusal(old(chunks), body)
    {
      var stored := bucket.UploadPart(key, nextPartNumber, body, fault);
      if stored.None? { return Some(StoreFailed); }
      if dbFails { return Some(DatabaseFailed); }
      var ok := PersistPart(stored.value, establishUniformSize, body);
      return if ok then None else Some(PartNumbersExhausted);
    }

    /** Every call to the bucket and the database on the way succeeds. */
    ghost predicate Healthy(fault: Fault, dbFails: bool)
      reads this, bucket
    {
      key in bucket.uploads && fault.Fine? && !dbFails
    }

    lemma OffsetIsStored()
      requires Valid()
      ensures acceptedOffset == Offset(Abs())
    {
    }

    /**
     `patch_upload`. A chunk is accepted exactly when the reference model accepts it and nothing
     fails; otherwise the session has not changed. The reply is the new offset.
     */
    method PatchUpload(now: int, range: ContentRange, body: Bytes, fault: Fault, dbFails: bool)
        returns (r: Result<int, Refusal>)
      requires Valid()
      modifies this, bucket`uploads
      ensures Valid()
      ensures bucket.uploads - {key} == old(bucket.uploads) - {key}
      ensures var refusal := PatchRefusal(old(Abs()), expiresAt <= now, limit, range, body);
        && (refusal.Some? && refusal.value != PartNumbersExhausted ==> r == Err(refusal.value))
        && (r.Ok? <==> refusal.None? && old(Healthy(fault, dbFails)))
      ensures r.Ok? ==> Abs() == Patch(old(Abs()), expiresAt <= now, limit, range, body) && r.value == Offset(Abs())
      ensures r.Ok? ==> chunks == old(chunks) + [body] && status == old(status)
      ensures r.Ok? ==> r.value == old(acceptedOffset) + |body|
      ensures r.Err? ==> Abs() == old(Abs())
      ensures 0 < |body| <= limit && (old(status) != Uploading || expiresAt <= now) ==>
                r == Err(Refusal.Unavailable) && unchanged(this) && bucket.uploads == old(bucket.uploads)
    {
      hide Counters, PartsStored, RangeRefusal, Flat, ShortTail;
      OffsetIsStored();
      if |body| > limit { return Err(TooLarge); }
      if body == [] { return Err(EmptyPatch); }
      if Unavailable(now) { return Err(Refusal.Unavailable); }
      var refusal := RangeRefusal(range, acceptedOffset, |body|);
      if refusal.Some? { return Err(refusal.value); }
      refusal := CheckSize(body);
      if refusal.Some? { return Err(refusal.value); }
      ghost var before := chunks;
      refusal := StorePart(body, true, fault, dbFails);
      if refusal.Some? { return Err(refusal.value); }
      FlatSnoc(before, body);
      return Ok(acceptedOffset);
    }

    /**
     The transaction of `complete_upload`: the last chunk, if there is one, and the change to
     `finalizing`, which closes the session to every later PATCH and PUT.
     */
    method CloseUpload(now: int, range: ContentRange, body: Bytes, fault: Fault, dbFails: bool)
        returns (refused: Option<Refusal>)
      requires Valid()
      modifies this, bucket`uploads
      ensures Valid()
      ensures bucket.uploads - {key} == old(bucket.uploads) - {key}
      ensures key in bucket.uploads <==> key in old(bucket.uploads)
      ensures var refusal := PutRefusal(old(Abs()), expiresAt <= now, limit, range, body);
        && (refusal.Some? && refusal.value != PartNumbersExhausted ==> refused == refusal)
        && (refused.None? <==> refusal.None? && !dbFails && (body == [] || old(Healthy(fault, dbFails))))
      ensures refused.None? ==> Abs() == Put(old(Abs()), expiresAt <= now, limit, range, body)
      ensures refused.None? ==>
                status == Finalizing && chunks == if body == [] then old(chunks) else old(chunks) + [body]
      ensures refused.Some? ==> Abs() == old(Abs())
      ensures |body| <= limit && (old(status) != Uploading || expiresAt <= now) ==>
                refused == Some(Refusal.Unavailable) && unchanged(this) && bucket.uploads == old(bucket.uploads)
    {
      hide Counters, PartsStored, RangeRefusal, Flat, ShortTail;
      OffsetIsStored();
      if |body| > limit { return Some(TooLarge); }
      if Unavailable(now) { return Some(Refusal.Unavailable); }
      var refusal := RangeRefusal(range, acceptedOffset, |body|);
      if refusal.Some? { return refusal; }
      if body != [] {
        refusal := CheckSize(body);
        if refusal.Some? { return refusal; }
        refusal := StorePart(body, false, fault, dbFails);
        if refusal.Some? { return refusal; }
      } else if dbFails {
        return Some(DatabaseFailed);
      }
      status := Finalizing;
      return None;
    }

    /** `upload_parts`: the rows in part-number order. */
    method UploadParts() returns (rows: seq<CompletedPart>)
      requires Valid()
      ensures |rows| == |chunks|
      ensures forall i :: 0 <= i < |rows| ==> rows[i] == CompletedPart(i + 1, bucket.tag(chunks[i]), |chunks[i]|)
    {
      rows := [];
      while |rows| + 1 in parts
        invariant |rows| <= |chunks|
        invariant forall i :: 0 <= i < |rows| ==> rows[i] == CompletedPart(i + 1, bucket.tag(chunks[i]), |chunks[i]|)
        decreases |chunks| - |rows|
      {
        var n := |rows| + 1;
        rows := rows + [CompletedPart(n, parts[n].etag, parts[n].size)];
      }
    }

    /**
     Assembly: the recorded parts become the object; with no part recorded, the multipart upload
     is aborted and an empty object is put in its place. Success means the object holds exactly
     the accepted bytes, orphan or not.
     */
    method Assemble(fault: Fault, putFault: Fault) returns (ok: bool)
      requires Valid() && status.Finalizing?
      modifies bucket
      ensures Valid()
      ensures bucket.uploads - {key} == old(bucket.uploads) - {key}
      ensures bucket.objects == old(bucket.objects) || bucket.objects == old(bucket.objects)[key := Flat(chunks)]
      ensures ok ==> bucket.objects == old(bucket.objects)[key := Flat(chunks)]
      ensures ok <==> key in old(bucket.uploads) && fault.Fine? && (chunks != [] || putFault.Fine?)
    {
      hide Counters, PartsStored, PartsPresent;
      var rows := UploadParts();
      ghost var open := bucket.uploads;
      if rows == [] {
        ok := bucket.AbortUpload(key, fault);
        if ok {
          ok := bucket.Put(key, [], putFault);
        }
        assert bucket.uploads == open || key !in bucket.uploads;
      } else {
        if key in bucket.uploads {
          RowsNameChunks(bucket.uploads[key], chunks, rows, bucket.tag);
        }
        ok := bucket.CompleteUpload(key, rows, fault);
        assert bucket.uploads == open || key !in bucket.uploads;
      }
    }

    /** `cancel_upload`. Only a session still uploading changes; its multipart upload is gone. */
    method Cancel(now: int, fault: Fault, dbFails: bool) returns (r: Option<Refusal>)
      requires Valid()
      modifies this`status, bucket`uploads
      ensures Valid() && chunks == old(chunks)
      ensures bucket.uploads - {key} == old(bucket.uploads) - {key}
      ensures old(status) != Uploading || expiresAt <= now ==>
                r == Some(Refusal.Unavailable) && status == old(status) && bucket.uploads == old(bucket.uploads)
      ensures r.None? <==> old(status) == Uploading && now < expiresAt
                           && key in old(bucket.uploads) && fault.Fine? && !dbFails
      ensures r.None? ==> status == Cancelled && key !in bucket.uploads
      ensures r.Some? ==> status == old(status)
    {
      if Unavailable(now) { return Some(Refusal.Unavailable); }
      var ok := bucket.AbortUpload(key, fault);
      if !ok { return Some(StoreFailed); }
      if dbFails { return Some(DatabaseFailed); }
      if status == Uploading { status := Cancelled; }
      return None;
    }

    /** One turn of the loop in `clean_expired_uploads`; a failed abort is only logged. */
    method Expire(now: int, fault: Fault) returns (expired: bool)
      requires Valid()
      modifies this`status, bucket`uploads
      ensures Valid() && chunks == old(chunks)
      ensures bucket.uploads - {key} == old(bucket.uploads) - {key}
      ensures expired == (old(status) in {Uploading, Finalizing} && expiresAt <= now)
      ensures status == if expired then Failed else old(status)
      ensures !expired ==> bucket.uploads == old(bucket.uploads)
      ensures expired && !fault.LostRequest? ==> key !in bucket.uploads
    {
      if !(status in {Uploading, Finalizing}) || now < expiresAt { return false; }
      var _ := bucket.AbortUpload(key, fault);
      status := Failed;
      return true;
    }
  }

  /**
   `start_upload`: open the multipart upload, then insert the row. If the row cannot be inserted,
   the multipart upload is aborted again; a failure of that is ignored.
   */
  method StartUpload(bucket: Bucket, key: Key, now: int, hours: nat, limit: nat, fault: Fault, dbFails: bool,
                     abort: Fault)
      returns (session: UploadSession?)
    requires limit < 0x1_0000_0000
    modifies bucket`uploads
    ensures bucket.uploads - {key} == old(bucket.uploads) - {key}
    ensures session != null <==> fault.Fine? && !dbFails
    ensures session != null ==>
      && fresh(session) && session.Valid() && session.Abs() == Upload([], Uploading)
      && session.key == key && session.bucket == bucket && session.limit == limit
      && session.expiresAt == now + hours * 3600
    ensures session == null && fault.Fine? && !abort.LostRequest? ==> key !in bucket.uploads
  {
    var ok := bucket.InitiateUpload(key, fault);
    if !ok { return null; }
    if dbFails {
      var _ := bucket.AbortUpload(key, abort);
      return null;
    }
    session := new UploadSession(key, now + hours * 3600, limit, bucket);
  }
}
