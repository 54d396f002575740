/** The registry server: its tables and its bucket, and the handlers that run on them. */
module Server {
  import opened Common
  import opened Digests
  import opened Storage
  import opened BlobTables
  import opened Manifests
  import opened Registry
  import Uploads
  import Sessions

  const GC_BATCH: nat := 100

  /** How a completion ended: with a reply, with a commit but no good reply, or without one. */
  datatype Outcome = Created | Committed | DigestMismatch | Failed

  /** The stops a commit lies before. */
  predicate IsCommitted(stop: Stop) {
    stop in {AtDelete, Never}
  }

  /** An assembly that fails has stored nothing, or its reply was lost. */
  lemma NotAssembled(hash: Bytes -> Digest, t: Tables, repo: Repo, key: Key, bytes: Bytes, expected: Digest)
    ensures CompleteUntil(hash, t, repo, key, bytes, expected, AtAssembly) == (t, false)
    ensures CompleteUntil(hash, t, repo, key, bytes, expected, AtHashing) == (PutObject(t, key, bytes), false)
  {
  }

  /**
   The digest is committed and linked. If the key was new, and no committed row named a wrong
   object, the row names an object with its digest and size, and every other row, object and link
   is as it was.
   */
  ghost predicate Completed(hash: Bytes -> Digest, t: Tables, t': Tables, repo: Repo, key: Key, expected: Digest) {
    && IsLive(t', expected) && (repo, expected) in t'.links
    && (LostButNotWrong(hash, t) && FreshKey(t, key) ==>
        && Holds(hash, t', expected)
        && t'.links == t.links + {(repo, expected)}
        && t'.objects - {key} == t.objects
        && (forall e :: e != expected ==> (e in t'.blobs <==> e in t.blobs))
        && (forall e :: e != expected && e in t.blobs ==> t'.blobs[e] == t.blobs[e]))
  }

  /** Neither row nor link nor the object of another key has changed, and no object is left under the key. */
  ghost predicate Uncompleted(t: Tables, t': Tables, key: Key) {
    && t'.blobs == t.blobs && t'.links == t.links
    && t'.objects == t.objects - {key}
  }

  /** What the client is told of a completion that no failing call broke off is true of the tables. */
  lemma CompletedWhole(hash: Bytes -> Digest, t: Tables, repo: Repo, key: Key, bytes: Bytes, expected: Digest)
    ensures var (t', ok) := CompleteUntil(hash, t, repo, key, bytes, expected, Never);
            ok == (hash(bytes) == expected)
            && if ok then Completed(hash, t, t', repo, key, expected) else Uncompleted(t, t', key)
  {
    if hash(bytes) == expected && LostButNotWrong(hash, t) && FreshKey(t, key) {
      CompletionHeals(hash, t, repo, key, bytes);
      hide LostButNotWrong, FreshKey, Holds;
    }
    assert t.objects[key := bytes] - {key} == t.objects - {key};
  }

  /** Under a key of its own, a completion is one request of a run. */
  lemma CompletionIsRequest(env: Env, s: State, s': State, repo: Repo, key: Key, bytes: Bytes, expected: Digest,
                            stop: Stop)
    requires s'.t == CompleteUntil(env.codec.hash, s.t, repo, key, bytes, expected, stop).0 && s'.db == s.db
    ensures FreshKey(s.t, key) ==>
              s' == Registry.Apply(env, s, Request.FinishUpload(repo, key, bytes, expected, stop))
  {
    hide CompleteUntil;
  }

  lemma DeleteIsRequest(env: Env, s: State, repo: Repo, digest: Digest, order: seq<Tag>)
    ensures Registry.DeleteManifest(s, repo, digest, order)
            == Registry.Apply(env, s, RemoveManifest(repo, digest, order))
  {
  }

  lemma SessionBytesFit(session: Sessions.UploadSession)
    requires session.Valid()
    ensures |Flat(session.chunks)| <= MAX_I64
  {
    Uploads.OffsetsFit(session.chunks, session.limit);
  }

  class RegistryServer {
    const env: Env
    const bucket: Bucket

    var blobs: map<Digest, BlobRow>
    var repositoryBlobs: set<(Repo, Digest)>
    var manifests: map<Digest, ManifestRow>
    var edges: map<EdgeKey, EdgeRow>
    var live: set<(Repo, Digest)>
    var tags: map<(Repo, Tag), Digest>
    var events: seq<TagEvent>
    var patterns: map<Repo, string>

    ghost var checked: map<(Repo, Digest), Document>

    ghost function BlobSide(): Tables
      reads this, bucket
    {
      Tables(blobs, bucket.objects, repositoryBlobs)
    }

    ghost function ManifestSide(): Database
      reads this
    {
      Database(manifests, edges, live, tags, events, patterns, checked)
    }

    ghost function Now(): State
      reads this, bucket
    {
      State(BlobSide(), ManifestSide())
    }

    constructor (env: Env, bucket: Bucket)
      requires bucket.objects == map[]
      ensures this.env == env && this.bucket == bucket && Now() == Registry.INITIAL
    {
      this.env := env;
      this.bucket := bucket;
      blobs, repositoryBlobs := map[], {};
      manifests, edges, live := map[], map[], {};
      tags, events, patterns := map[], [], map[];
      checked := map[];
    }

    // -------------------------------------------------------------- blobs

    /** `repair_missing_blob_metadata`. */
    method RepairMissing(digest: Digest, fails: bool) returns (ok: bool)
      modifies this`blobs
      ensures ok == !fails
      ensures BlobSide() == if fails then old(BlobSide()) else Repair(old(BlobSide()), digest)
    {
      if fails { return false; }
      if digest !in blobs || blobs[digest].status != Live { return true; }
      var key := blobs[digest].key;
      var present := bucket.Exists(key, false);
      if present.value { return true; }
      blobs := blobs[digest := blobs[digest].(status := Tombstoned)];
      return true;
    }

    /** The transaction of `commit_blob`. */
    method CommitRow(repo: Repo, key: Key, digest: Digest, size: int) returns (duplicate: bool)
      modifies this`blobs, this`repositoryBlobs
      ensures duplicate == Duplicate(old(BlobSide()), key, digest)
      ensures BlobSide() == CommitBlob(old(BlobSide()), repo, key, digest, size)
    {
      duplicate := digest in blobs && blobs[digest].status == Live && blobs[digest].key != key;
      if digest !in blobs || blobs[digest].status == Tombstoned {
        blobs := blobs[digest := BlobRow(key, size, Live)];
      }
      repositoryBlobs := repositoryBlobs + {(repo, digest)};
    }

    /**
     `complete_upload` once `bytes`, the accepted bytes of the session, are the object under the
     session's key. `before` are the tables before they were.
     */
    method FinishUpload(repo: Repo, key: Key, expected: Digest, cut: nat, stop: Stop, ghost before: Tables,
                        ghost bytes: Bytes)
        returns (outcome: Outcome)
      requires BlobSide() == PutObject(before, key, bytes) && |bytes| <= MAX_I64 && !stop.AtAssembly?
      modifies this`blobs, this`repositoryBlobs, bucket`objects
      ensures (BlobSide(), outcome.Created?) == CompleteUntil(env.codec.hash, before, repo, key, bytes, expected, stop)
      ensures outcome.DigestMismatch? <==> env.codec.hash(bytes) != expected && stop !in {AtHashing, AtDelete}
      ensures outcome.Created? || outcome.Committed? <==> env.codec.hash(bytes) == expected && IsCommitted(stop)
    {
      var hashed := HashStoredBlob(bucket, env.codec.hash, key, cut, stop.AtHashing?);
      if hashed.None? { return Failed; }
      var (actual, size) := hashed.value;
      if actual != expected {
        var deleted := bucket.Delete(key, stop.AtDelete?);
        return if deleted then DigestMismatch else Failed;
      }
      var ok := RepairMissing(expected, stop.AtRepair?);
      if !ok || stop.AtCommit? { return Failed; }
      var duplicate := CommitRow(repo, key, expected, size);
      if duplicate {
        ok := bucket.Delete(key, stop.AtDelete?);
        if !ok { return Committed; }
      }
      return Created;
    }

    /**
     What `complete_upload` does once the session is closed: assemble its parts, and finish. It does
     to the tables what BlobTables.CompleteUntil does with the accepted bytes. If every call
     succeeds, the right digest is committed and linked, and a wrong one is told from it.
     */
    method CompleteClosed(session: Sessions.UploadSession, repo: Repo, expected: Digest, assembly: Fault,
                          empty: Fault, cut: nat, later: Stop, markFails: bool)
        returns (outcome: Outcome, ghost stop: Stop)
      requires session.Valid() && session.bucket == bucket && session.status.Finalizing? && !later.AtAssembly?
      modifies this`blobs, this`repositoryBlobs, bucket, session`status
      ensures session.Valid()
      ensures (BlobSide(), outcome.Created?)
              == CompleteUntil(env.codec.hash, old(BlobSide()), repo, session.key, Flat(session.chunks), expected, stop)
      ensures if old(session.key in bucket.uploads) && assembly.Fine? && (session.chunks != [] || empty.Fine?)
              then stop == later
              else stop in {AtAssembly, AtHashing}
      ensures session.status in {Uploads.Finalizing, Uploads.Failed, Uploads.Committed}
      ensures session.status.Committed? <==> env.codec.hash(Flat(session.chunks)) == expected && IsCommitted(stop)
      ensures session.status.Failed? ==> env.codec.hash(Flat(session.chunks)) != expected
      ensures stop.Never? ==>
                if env.codec.hash(Flat(session.chunks)) == expected
                then outcome.Created?
                     && Completed(env.codec.hash, old(BlobSide()), BlobSide(), repo, session.key, expected)
                else outcome.DigestMismatch? && (!markFails ==> session.status.Failed?)
                     && Uncompleted(old(BlobSide()), BlobSide(), session.key)
    {
      hide Sessions.Counters, CompleteUntil, Sessions.PartsStored, Completed, Uncompleted, Flat;
      ghost var start := BlobSide();
      outcome, stop := Failed, AtAssembly;
      SessionBytesFit(session);
      var assembled := session.Assemble(assembly, empty);
      ghost var bytes := Flat(session.chunks);
      NotAssembled(env.codec.hash, start, repo, session.key, bytes, expected);
      if !assembled {
        stop := if bucket.objects == start.objects then AtAssembly else AtHashing;
        return;
      }
      stop := later;
      outcome := FinishUpload(repo, session.key, expected, cut, later, start, bytes);
      CompletedWhole(env.codec.hash, start, repo, session.key, bytes, expected);
      if outcome.Created? || outcome.Committed? {
        session.status := Uploads.Committed;
      } else if outcome.DigestMismatch? && !markFails {
        session.status := Uploads.Failed;
      }
    }

    /**
     `complete_upload` as a whole. A refused PUT changes no session and no table. One that gets
     through completes the session's accepted bytes, and if every call succeeds the client is told
     whether they have the digest; if they have, it is committed, linked and backed by its object.
     */
    method CompleteUpload(session: Sessions.UploadSession, repo: Repo, now: int, range: Uploads.ContentRange,
                          body: Bytes, expected: Digest, part: Fault, txFails: bool, assembly: Fault, empty: Fault,
                          cut: nat, later: Stop, markFails: bool)
        returns (refusal: Option<Uploads.Refusal>, outcome: Outcome, ghost stop: Stop)
      requires session.Valid() && session.bucket == bucket && !later.AtAssembly?
      modifies this`blobs, this`repositoryBlobs, bucket, session
      ensures session.Valid()
      ensures refusal.Some? ==>
        outcome == Failed && session.Abs() == old(session.Abs()) && BlobSide() == old(BlobSide())
      ensures refusal.None? ==>
        && session.chunks
           == Uploads.Put(old(session.Abs()), session.expiresAt <= now, session.limit, range, body).chunks
        && (BlobSide(), outcome.Created?)
           == CompleteUntil(env.codec.hash, old(BlobSide()), repo, session.key, Flat(session.chunks), expected, stop)
        && session.status in {Uploads.Finalizing, Uploads.Failed, Uploads.Committed}
        && (session.status.Committed? <==> env.codec.hash(Flat(session.chunks)) == expected && IsCommitted(stop))
        && (session.status.Failed? ==> env.codec.hash(Flat(session.chunks)) != expected)
        && (if old(session.key in bucket.uploads) && assembly.Fine? && (session.chunks != [] || empty.Fine?)
            then stop == later
            else stop in {AtAssembly, AtHashing})
        && (FreshKey(old(BlobSide()), session.key) ==>
            Now() == Registry.Apply(env, old(Now()),
                       Request.FinishUpload(repo, session.key, Flat(session.chunks), expected, stop)))
      ensures refusal.None? && old(session.key in bucket.uploads) && assembly.Fine? && later.Never?
              && (session.chunks != [] || empty.Fine?) ==>
        if env.codec.hash(Flat(session.chunks)) == expected
        then outcome.Created? && session.status.Committed?
             && Completed(env.codec.hash, old(BlobSide()), BlobSide(), repo, session.key, expected)
        else outcome.DigestMismatch? && (!markFails ==> session.status.Failed?)
             && Uncompleted(old(BlobSide()), BlobSide(), session.key)
    {
      hide Sessions.Counters, CompleteUntil, Sessions.PartsStored, Completed, Uncompleted, FreshKey, Registry.Apply,
            Flat;
      ghost var from := Now();
      outcome, stop := Failed, AtAssembly;
      refusal := session.CloseUpload(now, range, body, part, txFails);
      if refusal.Some? { return; }
      outcome, stop := CompleteClosed(session, repo, expected, assembly, empty, cut, later, markFails);
      CompletionIsRequest(env, from, Now(), repo, session.key, Flat(session.chunks), expected, stop);
    }

    /** HEAD of a blob. */
    method BlobExists(repo: Repo, digest: Digest) returns (r: bool)
      ensures r == ((repo, digest) in repositoryBlobs && IsLive(BlobSide(), digest))
    {
      return (repo, digest) in repositoryBlobs && digest in blobs && blobs[digest].status == Live;
    }

    method MountBlob(source: Repo, target: Repo, digest: Digest) returns (mounted: bool)
      modifies this`repositoryBlobs
      ensures mounted == ((source, digest) in old(repositoryBlobs) && IsLive(old(BlobSide()), digest))
      ensures BlobSide() == Mount(old(BlobSide()), source, target, digest)
      ensures Now() == Registry.Apply(env, old(Now()), Request.MountBlob(source, target, digest))
      ensures mounted ==> forall link :: link in repositoryBlobs <==>
                link in old(repositoryBlobs) || link == (target, digest)
      ensures !mounted ==> unchanged(this)
    {
      mounted := BlobExists(source, digest);
      if mounted {
        repositoryBlobs := repositoryBlobs + {(target, digest)};
      }
    }

    // -------------------------------------------------------------- manifests

    /** `validate_manifest_dependencies`. */
    method ValidateDependencies(repo: Repo, items: seq<Item>) returns (refusal: Option<Error>)
      ensures refusal == DependencyRefusal(Now(), repo, items)
    {
      for i := 0 to |items|
        invariant DependencyRefusal(Now(), repo, items[..i]).None?
      {
        var item := items[i];
        var digest := item.descriptor.digest;
        ghost var one := ItemRefusal(Now(), repo, item);
        DependencyPrefix(Now(), repo, items, i);
        if item.descriptor.size < 0 { return Some(ManifestInvalid); }
        var found := true;
        match item.relationship {
          case Manifest => found := (repo, digest) in live;
          case Subject =>
          case _ =>
            found := (repo, digest) in repositoryBlobs && digest in blobs
                     && blobs[digest].status == Live && blobs[digest].size == item.descriptor.size;
        }
        if !found { return Some(ManifestBlobUnknown(item)); }
      }
      assert items[..|items|] == items;
      return None;
    }

    /** `put_manifest`: every check that needs no transaction, then `persist_manifest`. */
    method PutManifest(repo: Repo, reference: string, supplied: Option<string>, raw: Bytes)
        returns (refusal: Option<Error>)
      modifies this
      ensures refusal == PushRefusal(env, old(Now()), repo, reference, supplied, raw)
      ensures Now() == Registry.PutManifest(env, old(Now()), repo, reference, supplied, raw)
      ensures Now() == Registry.Apply(env, old(Now()), PushManifest(repo, reference, supplied, raw))
    {
      if |raw| > MANIFEST_LIMIT { return Some(SizeInvalid); }
      var parsed := ParseDocument(env.codec, raw, supplied);
      if parsed.Err? { return Some(ManifestInvalid); }
      hide Manifests.Parse, Digests.Parse, DependencyRefusal, TagRefusal, Persist, MoveTag;
      var doc := parsed.value;
      var named := Digests.Parse(reference);
      if named.Ok? && named.value != doc.digest { return Some(DigestInvalid); }
      refusal := ValidateDependencies(repo, doc.items);
      if refusal.Some? { return; }
      refusal := PersistManifest(repo, reference, named.Ok?, doc);
    }

    /**
     `persist_manifest`: one transaction. It works on copies of the tables, so an error on the way
     leaves the tables as they were.
     */
    method PersistManifest(repo: Repo, reference: string, byDigest: bool, doc: Document)
        returns (refusal: Option<Error>)
      modifies this
      ensures refusal == if byDigest then None else TagRefusal(env, old(ManifestSide()), repo, reference, doc.digest)
      ensures BlobSide() == old(BlobSide())
      ensures var persisted := Persist(old(ManifestSide()), repo, doc);
              ManifestSide() == if refusal.Some? then old(ManifestSide())
                                else if byDigest then persisted
                                else MoveTag(persisted, repo, reference, doc.digest)
    {
      var newManifests := WithManifest(doc);
      var newEdges := InsertAll(doc.digest, doc.items);
      hide InsertEdges, TagRefusal, Lookup, WithManifest, ValidTag;
      var newTags, newEvents := tags, events;
      if !byDigest {
        refusal, newTags, newEvents := BindTag(repo, reference, doc.digest);
        if refusal.Some? { return; }
      }
      manifests, edges, live := newManifests, newEdges, live + {(repo, doc.digest)};
      tags, events := newTags, newEvents;
      checked := checked[(repo, doc.digest) := doc];
      return None;
    }

    /** The manifest table with a row for the document; a row that is there stays. */
    function WithManifest(doc: Document): map<Digest, ManifestRow>
      reads this
      ensures WithManifest(doc) == Persist(ManifestSide(), "", doc).manifests
    {
      if doc.digest in manifests then manifests
      else
        var subject := if doc.subject.Some? then Some(doc.subject.value.digest) else None;
        manifests[doc.digest := ManifestRow(doc.mediaType, doc.artifactType, subject, doc.raw)]
    }

    /** The tag half of `persist_manifest`, on copies of the tag table and the tag history. */
    method BindTag(repo: Repo, tag: Tag, digest: Digest)
        returns (refusal: Option<Error>, newTags: map<(Repo, Tag), Digest>, newEvents: seq<TagEvent>)
      ensures refusal == TagRefusal(env, ManifestSide(), repo, tag, digest)
      ensures refusal.None? ==>
                var moved := MoveTag(ManifestSide(), repo, tag, digest);
                newTags == moved.tags && newEvents == moved.events
    {
      newTags, newEvents := tags, events;
      if !ValidTag(tag) { return Some(TagInvalid), newTags, newEvents; }
      var previous := Lookup(tags, (repo, tag));
      if previous.Some? && previous.value != digest && repo in patterns {
        var matched := env.matches(patterns[repo], tag);
        if matched.None? { return Some(PatternInvalid), newTags, newEvents; }
        if matched.value { return Some(TagImmutable), newTags, newEvents; }
      }
      newTags := newTags[(repo, tag) := digest];
      if previous != Some(digest) {
        newEvents := newEvents + [TagEvent(repo, tag, previous, Some(digest))];
      }
      return None, newTags, newEvents;
    }

    /** The loop of inserts in `persist_manifest`, on a copy of the edge table. */
    method InsertAll(parent: Digest, items: seq<Item>) returns (r: map<EdgeKey, EdgeRow>)
      ensures r == InsertEdges(edges, parent, items)
    {
      r := edges;
      for i := 0 to |items|
        invariant r == InsertEdges(edges, parent, items[..i])
      {
        assert items[..i + 1][..i] == items[..i];
        var key := KeyOf(parent, items[i]);
        if key !in r {
          r := r[key := RowOf(items[i])];
        }
      }
      assert items[..|items|] == items;
    }

    /** `get_manifest`. */
    method Resolve(repo: Repo, reference: string) returns (r: Option<Digest>)
      ensures r == Resolves(Now(), repo, reference)
      ensures r.Some? ==>
        && (repo, r.value) in live && r.value in manifests
        && (reference == Print(r.value) || ((repo, reference) in tags && tags[(repo, reference)] == r.value))
      ensures forall d :: reference == Print(d) && (repo, d) in live && d in manifests ==> r == Some(d)
      ensures Digests.Parse(reference).Err? && (repo, reference) in tags ==>
                var d := tags[(repo, reference)];
                (repo, d) in live && d in manifests ==> r == Some(d)
    {
      forall d
        ensures Digests.Parse(reference) == Ok(d) <==> reference == Print(d)
      {
        ParseIffPrint(reference, d);
      }
      var named := Digests.Parse(reference);
      var digest := if named.Ok? then Some(named.value) else Lookup(tags, (repo, reference));
      if digest.Some? && (repo, digest.value) in live && digest.value in manifests { return digest; }
      return None;
    }

    /** `delete_manifest`: the link, every tag that points to it, and one event per tag. */
    method DeleteManifest(repo: Repo, digest: Digest) returns (found: bool, ghost order: seq<Tag>)
      modifies this`live, this`tags, this`events
      ensures found == ((repo, digest) in old(live))
      ensures Lists(order, TagsOf(old(tags), repo, digest))
      ensures Now() == Registry.DeleteManifest(old(Now()), repo, digest, order)
      ensures Now() == Registry.Apply(env, old(Now()), RemoveManifest(repo, digest, order))
      ensures found ==>
        && (forall link :: link in live <==> link in old(live) && link != (repo, digest))
        && (forall k :: k in tags <==> k in old(tags) && (k.0 != repo || old(tags)[k] != digest))
        && (forall k :: k in tags ==> tags[k] == old(tags)[k])
      ensures !found ==> unchanged(this)
    {
      hide Registry.Apply;
      ghost var start := Now();
      var deleted: set<Tag> := set k | k in tags && k.0 == repo && tags[k] == digest :: k.1;
      if (repo, digest) !in live {
        order := SomeOrder(deleted);
        DeleteIsRequest(env, start, repo, digest, order);
        return false, order;
      }
      var newEvents := events;
      order := [];
      var rest := deleted;
      while |rest| > 0
        invariant rest <= deleted
        invariant forall tag :: tag in deleted <==> tag in rest || tag in order
        invariant forall tag :: tag in rest ==> tag !in order
        invariant forall i, j :: 0 <= i < j < |order| ==> order[i] != order[j]
        invariant newEvents == events + Removals(repo, digest, order)
        decreases |rest|
      {
        var tag :| tag in rest;
        rest := rest - {tag};
        newEvents := newEvents + [TagEvent(repo, tag, Some(digest), None)];
        order := order + [tag];
      }
      live := live - {(repo, digest)};
      tags := Untag(tags, repo, digest);
      events := newEvents;
      DeleteIsRequest(env, start, repo, digest, order);
      return true, order;
    }

    // -------------------------------------------------------------- garbage collection

    /**
     The listing query: committed, old enough, referred to by no live manifest; the oldest first, a
     batch at a time. `createdAt` is when a row was made.
     */
    method ListGarbage(oldEnough: set<Digest>, createdAt: Digest -> int) returns (batch: seq<(Digest, Key)>)
      ensures |batch| <= GC_BATCH
      ensures forall i :: 0 <= i < |batch| ==> batch[i].0 in blobs && blobs[batch[i].0].key == batch[i].1
      ensures OldestFirst(batch, GarbageOf(Now(), oldEnough), createdAt)
    {
      hide IsGarbage, Listing, OldestFirst;
      ghost var garbage := GarbageOf(Now(), oldEnough);
      batch := [];
      var rest := blobs.Keys;
      NothingListed(blobs.Keys, garbage, createdAt);
      while |rest| > 0 && |batch| < GC_BATCH
        invariant rest <= blobs.Keys && |batch| <= GC_BATCH
        invariant forall i :: 0 <= i < |batch| ==> batch[i].0 in blobs && blobs[batch[i].0].key == batch[i].1
        invariant Listing(batch, rest, garbage, createdAt)
        decreases |rest|
      {
        var d := Oldest(rest, createdAt);
        if CanCollect(d, oldEnough) {
          ListOne(batch, rest, garbage, createdAt, d, blobs[d].key);
          batch := batch + [(d, blobs[d].key)];
        } else {
          SkipOne(batch, rest, garbage, createdAt, d);
        }
        rest := rest - {d};
      }
      ListingEnds(batch, rest, garbage, createdAt);
    }

    predicate IsReferenced(digest: Digest)
      reads this
      ensures IsReferenced(digest) == Referenced(ManifestSide(), digest)
    {
      exists k | k in edges && k.child == digest && (k.relationship.Config? || k.relationship.Layer?) ::
        exists link | link in live :: link.1 == k.parent
    }

    /** The condition of the listing and of the claim. */
    predicate CanCollect(digest: Digest, oldEnough: set<Digest>)
      reads this, bucket
      ensures CanCollect(digest, oldEnough) == IsGarbage(Now(), oldEnough, digest)
    {
      digest in blobs && blobs[digest].status == Live && digest in oldEnough && !IsReferenced(digest)
    }

    /**
     One turn of the loop in `clean_unreferenced_blobs`, for a digest and key from the listing:
     claim the row if it is still garbage, delete the object, then unlink; a delete that fails is
     undone. `ending` says which call fails, if one does.
     */
    method CollectOne(digest: Digest, key: Key, oldEnough: set<Digest>, ending: Ending) returns (ok: bool)
      requires IsLive(BlobSide(), digest) ==> blobs[digest].key == key
      modifies this`blobs, this`repositoryBlobs, bucket`objects
      ensures Now() == Collect(old(Now()), digest, digest in oldEnough, ending)
      ensures Now() == Registry.Apply(env, old(Now()), CollectBlob(digest, digest in oldEnough, ending))
      ensures ok == (ending.Unlinked? || !IsGarbage(old(Now()), oldEnough, digest))
      ensures ManifestSide() == old(ManifestSide())
      ensures if ending.Unlinked? && IsGarbage(old(Now()), oldEnough, digest)
              then Freed(old(BlobSide()), BlobSide(), {digest})
              else BlobSide().links == old(BlobSide()).links
    {
      ghost var start := BlobSide();
      hide Freed;
      if IsLive(start, digest) { CollectingFrees(start, digest); }
      if !CanCollect(digest, oldEnough) { return true; }
      ghost var before := blobs;
      blobs := blobs[digest := blobs[digest].(status := Tombstoned)];
      ok := bucket.Delete(key, ending.Restored? || ending.LeftClaimed?);
      if !ok {
        if ending.LeftClaimed? { return; }
        if blobs[digest].status == Tombstoned {
          blobs := blobs[digest := blobs[digest].(status := Live)];
        }
        assert blobs == before;
        return;
      }
      if ending.LeftDeleted? { return false; }
      repositoryBlobs := set link | link in repositoryBlobs && link.1 != digest;
    }

    /**
     `clean_unreferenced_blobs`: one batch, blob after blob. The first turn that does not end as it
     should ends the pass; everything before it was a successful collection of listed garbage.
     */
    method CollectGarbage(oldEnough: set<Digest>, createdAt: Digest -> int, endings: Digest -> Ending)
        returns (ok: bool, ghost done: seq<Digest>)
      modifies this`blobs, this`repositoryBlobs, bucket`objects
      ensures ok ==> Now() == CollectAll(old(Now()), done)
      ensures ManifestSide() == old(ManifestSide())
      ensures ok ==> Freed(old(BlobSide()), BlobSide(), AsSet(done))
      ensures ok && Consistent(env.codec.hash, old(BlobSide())) ==>
                forall e :: e !in done && IsLive(old(BlobSide()), e) ==>
                  IsLive(BlobSide(), e) && Holds(env.codec.hash, BlobSide(), e)
      ensures !ok ==> exists d ::
                IsGarbage(old(Now()), oldEnough, d) && !endings(d).Unlinked?
                && Now() == Collect(CollectAll(old(Now()), done), d, true, endings(d))
      ensures forall d :: d in done ==> IsGarbage(old(Now()), oldEnough, d)
      ensures |done| <= GC_BATCH
      ensures ok && |done| < GC_BATCH ==> forall d ::
                IsLive(old(BlobSide()), d) && d in oldEnough && !Referenced(old(ManifestSide()), d) ==> d in done
      ensures ok ==> forall d, e :: d in done && IsGarbage(old(Now()), oldEnough, e) && e !in done ==>
                createdAt(d) <= createdAt(e)
    {
      hide IsGarbage, Collect, IsLive, Referenced, CollectAll, OldestFirst, Pending, Freed, AsSet;
      var batch := ListGarbage(oldEnough, createdAt);
      ghost var start := Now();
      done := [];
      CollectNothing(start);
      NothingFreed(start.t);
      AsSetEmpty();
      PendingBegins(start, batch, oldEnough, createdAt);
      ListedIsGarbage(start, batch, oldEnough, createdAt);
      for i := 0 to |batch|
        invariant |done| == i && forall j :: 0 <= j < i ==> done[j] == batch[j].0
        invariant Now() == CollectAll(start, done)
        invariant Pending(Now(), batch, i, oldEnough)
        invariant ManifestSide() == start.db && Freed(start.t, BlobSide(), AsSet(done))
      {
        var (digest, key) := batch[i];
        PendingNext(Now(), batch, i, GarbageOf(start, oldEnough), oldEnough, createdAt);
        ghost var now := Now();
        ok := CollectOne(digest, key, oldEnough, endings(digest));
        if !ok { return false, done; }
        CollectOneMore(start, done, digest);
        GarbageIsLive(now, oldEnough, digest);
        FreedOneMore(start.t, now.t, BlobSide(), AsSet(done), digest);
        AsSetSnoc(done, digest);
        done := done + [digest];
      }
      SparesOthers(env.codec.hash, start.t, BlobSide(), done);
      AllCollected(batch, done, GarbageOf(start, oldEnough), createdAt);
      GarbageIs(start, oldEnough);
      return true, done;
    }

    method SetPattern(repo: Repo, pattern: Option<string>)
      modifies this`patterns
      ensures Lookup(patterns, repo) == pattern && patterns - {repo} == old(patterns) - {repo}
      ensures Now() == Registry.Apply(env, old(Now()), Request.SetPattern(repo, pattern))
    {
      patterns := if pattern.Some? then patterns[repo := pattern.value] else patterns - {repo};
    }
  }

  ghost function AsSet(digests: seq<Digest>): set<Digest> {
    set d | d in digests
  }

  lemma AsSetEmpty()
    ensures AsSet([]) == {}
  {
  }

  lemma AsSetSnoc(digests: seq<Digest>, d: Digest)
    ensures AsSet(digests + [d]) == AsSet(digests) + {d}
  {
  }

  lemma GarbageIs(s: State, oldEnough: set<Digest>)
    ensures forall d :: IsGarbage(s, oldEnough, d) <==>
              IsLive(s.t, d) && d in oldEnough && !Referenced(s.db, d)
  {
  }

  lemma GarbageIsLive(s: State, oldEnough: set<Digest>, d: Digest)
    requires IsGarbage(s, oldEnough, d)
    ensures IsLive(s.t, d)
  {
  }

  lemma SparesOthers(hash: Bytes -> Digest, t: Tables, t': Tables, done: seq<Digest>)
    requires Freed(t, t', AsSet(done))
    ensures Consistent(hash, t) ==> forall e :: e !in done && IsLive(t, e) ==> IsLive(t', e) && Holds(hash, t', e)
  {
    hide Consistent, Freed, IsLive, Holds;
    if Consistent(hash, t) {
      forall e | e !in done && IsLive(t, e)
        ensures IsLive(t', e) && Holds(hash, t', e)
      {
        FreedSparesOthers(hash, t, t', AsSet(done), e);
      }
    }
  }

  ghost function GarbageOf(s: State, oldEnough: set<Digest>): (garbage: set<Digest>)
    ensures forall d :: d in garbage <==> IsGarbage(s, oldEnough, d)
  {
    set d | d in s.t.blobs && IsGarbage(s, oldEnough, d)
  }

  /** A batch of garbage: each piece once, the oldest first, and what a full batch leaves out is no older. */
  ghost predicate OldestFirst(batch: seq<(Digest, Key)>, garbage: set<Digest>, createdAt: Digest -> int) {
    && (forall i :: 0 <= i < |batch| ==> batch[i].0 in garbage)
    && (forall i, j :: 0 <= i < j < |batch| ==>
        batch[i].0 != batch[j].0 && createdAt(batch[i].0) <= createdAt(batch[j].0))
    && (forall d :: d in garbage ==>
          || (exists i :: 0 <= i < |batch| && batch[i].0 == d)
          || (|batch| == GC_BATCH && forall i :: 0 <= i < |batch| ==> createdAt(batch[i].0) <= createdAt(d)))
  }

  /** The listing so far: garbage, each piece once, the oldest first; what remains is no older. */
  ghost predicate Listing(batch: seq<(Digest, Key)>, rest: set<Digest>, garbage: set<Digest>,
                          createdAt: Digest -> int) {
    && (forall i :: 0 <= i < |batch| ==> batch[i].0 in garbage && batch[i].0 !in rest)
    && (forall i, j :: 0 <= i < j < |batch| ==>
        batch[i].0 != batch[j].0 && createdAt(batch[i].0) <= createdAt(batch[j].0))
    && (forall i, d :: 0 <= i < |batch| && d in rest ==> createdAt(batch[i].0) <= createdAt(d))
    && (forall d :: d in garbage && d !in rest ==> exists i :: 0 <= i < |batch| && batch[i].0 == d)
  }

  lemma NothingListed(rest: set<Digest>, garbage: set<Digest>, createdAt: Digest -> int)
    requires garbage <= rest
    ensures Listing([], rest, garbage, createdAt)
  {
  }

  lemma ListOne(batch: seq<(Digest, Key)>, rest: set<Digest>, garbage: set<Digest>, createdAt: Digest -> int,
                d: Digest, key: Key)
    requires Listing(batch, rest, garbage, createdAt) && d in garbage
    requires d in rest && forall e :: e in rest ==> createdAt(d) <= createdAt(e)
    ensures Listing(batch + [(d, key)], rest - {d}, garbage, createdAt)
  {
    var longer := batch + [(d, key)];
    assert longer[|batch|].0 == d && forall i :: 0 <= i < |batch| ==> longer[i] == batch[i];
    ListCovers(batch, rest, garbage, d, key);
  }

  lemma ListCovers(batch: seq<(Digest, Key)>, rest: set<Digest>, garbage: set<Digest>, d: Digest, key: Key)
    requires forall e :: e in garbage && e !in rest ==> exists i :: 0 <= i < |batch| && batch[i].0 == e
    ensures var longer := batch + [(d, key)];
      forall e :: e in garbage && e !in rest - {d} ==> exists i :: 0 <= i < |longer| && longer[i].0 == e
  {
    var longer := batch + [(d, key)];
    assert longer[|batch|].0 == d;
    forall e | e in garbage && e !in rest - {d}
      ensures exists i :: 0 <= i < |longer| && longer[i].0 == e
    {
      if e != d {
        var i :| 0 <= i < |batch| && batch[i].0 == e;
        assert longer[i].0 == e;
      }
    }
  }

  lemma SkipOne(batch: seq<(Digest, Key)>, rest: set<Digest>, garbage: set<Digest>, createdAt: Digest -> int, d: Digest)
    requires Listing(batch, rest, garbage, createdAt) && d !in garbage
    ensures Listing(batch, rest - {d}, garbage, createdAt)
  {
  }

  lemma ListingEnds(batch: seq<(Digest, Key)>, rest: set<Digest>, garbage: set<Digest>, createdAt: Digest -> int)
    requires Listing(batch, rest, garbage, createdAt) && (|rest| == 0 || |batch| == GC_BATCH)
    ensures OldestFirst(batch, garbage, createdAt)
  {
    assert |rest| == 0 ==> rest == {};
  }

  /** The digest whose row was made first. */
  method Oldest(digests: set<Digest>, createdAt: Digest -> int) returns (oldest: Digest)
    requires |digests| > 0
    ensures oldest in digests && forall d :: d in digests ==> createdAt(oldest) <= createdAt(d)
  {
    oldest :| oldest in digests;
    var rest := digests - {oldest};
    while |rest| > 0
      invariant rest <= digests && oldest in digests
      invariant forall d :: d in digests && d !in rest ==> createdAt(oldest) <= createdAt(d)
      decreases |rest|
    {
      var d :| d in rest;
      rest := rest - {d};
      if createdAt(d) < createdAt(oldest) { oldest := d; }
    }
    assert rest == {};
  }

  lemma DependencyPrefix(s: State, repo: Repo, items: seq<Item>, i: nat)
    requires i < |items| && DependencyRefusal(s, repo, items[..i]).None?
    ensures DependencyRefusal(s, repo, items[..i + 1]) == ItemRefusal(s, repo, items[i])
    ensures ItemRefusal(s, repo, items[i]).Some? ==> DependencyRefusal(s, repo, items) == ItemRefusal(s, repo, items[i])
    decreases |items|
  {
    assert items[..i + 1][..i] == items[..i];
    if i + 1 < |items| {
      var front := items[..|items| - 1];
      assert front[..i] == items[..i];
      DependencyPrefix(s, repo, front, i);
    } else {
      assert items[..i + 1] == items;
    }
  }

  predicate IsGarbage(s: State, oldEnough: set<Digest>, d: Digest) {
    IsLive(s.t, d) && d in oldEnough && !Referenced(s.db, d)
  }

  /** Collecting one piece of garbage leaves every other row, and what is garbage, as it was. */
  lemma CollectOneOf(s: State, digest: Digest, oldEnough: set<Digest>)
    requires IsGarbage(s, oldEnough, digest)
    ensures Collect(s, digest, true, Restored) == s
    ensures forall d :: d != digest && d in s.t.blobs ==>
              var s' := Collect(s, digest, true, Unlinked); d in s'.t.blobs && s'.t.blobs[d] == s.t.blobs[d]
    ensures forall d :: d != digest && IsGarbage(s, oldEnough, d) ==>
              IsGarbage(Collect(s, digest, true, Unlinked), oldEnough, d)
    ensures IsLive(s.t, digest) && digest in oldEnough
  {
    assert Restore(Tombstone(s.t, digest), digest).blobs == s.t.blobs;
  }

  /** What is listed from number `i` on is still garbage, under the key it was listed with. */
  ghost predicate Pending(s: State, batch: seq<(Digest, Key)>, i: nat, oldEnough: set<Digest>) {
    forall j :: i <= j < |batch| ==>
      && IsGarbage(s, oldEnough, batch[j].0)
      && batch[j].0 in s.t.blobs && s.t.blobs[batch[j].0].key == batch[j].1
  }

  lemma PendingBegins(s: State, batch: seq<(Digest, Key)>, oldEnough: set<Digest>, createdAt: Digest -> int)
    requires OldestFirst(batch, GarbageOf(s, oldEnough), createdAt)
    requires forall i :: 0 <= i < |batch| ==> batch[i].0 in s.t.blobs && s.t.blobs[batch[i].0].key == batch[i].1
    ensures Pending(s, batch, 0, oldEnough)
  {
    hide IsGarbage;
  }

  lemma ListedIsGarbage(s: State, batch: seq<(Digest, Key)>, oldEnough: set<Digest>, createdAt: Digest -> int)
    requires OldestFirst(batch, GarbageOf(s, oldEnough), createdAt)
    ensures forall i :: 0 <= i < |batch| ==> IsGarbage(s, oldEnough, batch[i].0)
  {
    hide IsGarbage;
  }

  /** The next piece can be collected, and what comes after it stays to be collected. */
  lemma PendingNext(s: State, batch: seq<(Digest, Key)>, i: nat, garbage: set<Digest>, oldEnough: set<Digest>,
                    createdAt: Digest -> int)
    requires Pending(s, batch, i, oldEnough) && i < |batch| && OldestFirst(batch, garbage, createdAt)
    ensures var (digest, key) := batch[i];
      && IsGarbage(s, oldEnough, digest) && digest in oldEnough
      && digest in s.t.blobs && s.t.blobs[digest].key == key
      && Pending(Collect(s, digest, true, Unlinked), batch, i + 1, oldEnough)
  {
    CollectOneOf(s, batch[i].0, oldEnough);
    hide IsGarbage, Collect;
  }

  /** A pass that collected the whole batch collected the oldest garbage. */
  lemma AllCollected(batch: seq<(Digest, Key)>, done: seq<Digest>, garbage: set<Digest>, createdAt: Digest -> int)
    requires OldestFirst(batch, garbage, createdAt)
    requires |done| == |batch| && forall j :: 0 <= j < |batch| ==> done[j] == batch[j].0
    ensures |batch| < GC_BATCH ==> forall d :: d in garbage ==> d in done
    ensures forall d, e :: d in done && e in garbage && e !in done ==> createdAt(d) <= createdAt(e)
  {
    forall e | e in garbage && e !in done
      ensures forall i :: 0 <= i < |batch| ==> batch[i].0 != e
    {
      forall i | 0 <= i < |batch|
        ensures batch[i].0 != e
      {
        assert done[i] == batch[i].0 && done[i] in done;
      }
    }
  }

  /** One successful collection after the other. */
  function CollectAll(s: State, digests: seq<Digest>): State {
    if digests == [] then s
    else Collect(CollectAll(s, digests[..|digests| - 1]), digests[|digests| - 1], true, Unlinked)
  }

  lemma CollectNothing(s: State)
    ensures CollectAll(s, []) == s
  {
  }

  lemma CollectOneMore(s: State, digests: seq<Digest>, digest: Digest)
    ensures CollectAll(s, digests + [digest]) == Collect(CollectAll(s, digests), digest, true, Unlinked)
  {
    assert (digests + [digest])[..|digests|] == digests;
    hide Collect;
  }

  ghost function SomeOrder(tags: set<Tag>): (order: seq<Tag>)
    ensures Lists(order, tags)
    decreases |tags|
  {
    if |tags| == 0 then []
    else
      var tag :| tag in tags;
      [tag] + SomeOrder(tags - {tag})
  }
}
