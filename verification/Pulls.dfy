/**
 What a pull gets. The registry keeps one payload and one media type per digest, those of the
 first push to any repository. Whether reading that payload under that type gives what a later
 push was checked as, can be told before the push.
 */
module Pulls {
  import opened Common
  import opened Digests
  import opened BlobTables
  import opened Manifests
  import opened Registry
  import History

  /** The manifest as `get_manifest` serves it, parsed by whoever pulls it. */
  function Pulled(env: Env, db: Database, digest: Digest): Option<Document>
  {
    if digest !in db.manifests then None
    else
      match Manifests.Parse(env.codec, db.manifests[digest].payload, Some(db.manifests[digest].mediaType))
      case Ok(doc) => Some(doc)
      case Err(_) => None
  }

  /** Whoever pulls the document from the repository finds its config and layers there. */
  ghost predicate PullComplete(env: Env, s: State, repo: Repo, doc: Document) {
    forall item :: item in doc.items && NeedsBlob(item) ==> BlobReady(s.t, repo, item)
  }

  // ---------------------------------------------------------------- one push

  /** Rows parse under their type, and have the digest of their payload. */
  ghost predicate RowTrue(env: Env, digest: Digest, row: ManifestRow) {
    && env.codec.hash(row.payload) == digest
    && Manifests.Parse(env.codec, row.payload, Some(row.mediaType)).Ok?
  }

  /** Under the stored media type, the body of a row is a manifest of this kind. */
  ghost predicate RowReadsAs(env: Env, row: ManifestRow, kind: Kind) {
    && env.codec.json(row.payload).Some?
    && var body := env.codec.json(row.payload).value;
       && MediaType(body, Some(row.mediaType)).Some?
       && KindOf(body, MediaType(body, Some(row.mediaType)).value) == Some(kind)
  }

  lemma RowKind(env: Env, digest: Digest, row: ManifestRow, kind: Kind)
    requires RowTrue(env, digest, row)
    ensures Manifests.Parse(env.codec, row.payload, Some(row.mediaType)).value.kind == kind <==>
            RowReadsAs(env, row, kind)
  {
    hide Manifests.Parse, MediaType, KindOf;
    ParsedByKind(env.codec, row.payload, Some(row.mediaType));
  }

  /** The documents an accepted push, and a pull after it, read. */
  lemma PushThenPull(env: Env, s: State, repo: Repo, reference: string, supplied: Option<string>, raw: Bytes)
    requires PushRefusal(env, s, repo, reference, supplied, raw).None?
    ensures Manifests.Parse(env.codec, raw, supplied).Ok?
    ensures var doc := Manifests.Parse(env.codec, raw, supplied).value;
            var s' := Registry.PutManifest(env, s, repo, reference, supplied, raw);
      && doc.digest == env.codec.hash(raw) && s'.t == s.t && DependencyRefusal(s, repo, doc.items).None?
      && Pulled(env, s'.db, doc.digest) ==
         if doc.digest in s.db.manifests then Pulled(env, s.db, doc.digest) else Some(doc)
  {
    ParsedDigest(env.codec, raw, supplied);
    ReparseIsStable(env.codec, raw, supplied);
    hide Manifests.Parse, Digests.Parse, DependencyRefusal, TagRefusal, InsertEdges;
  }

  /**
   The exact condition. After an accepted push, a pull reads a document of the kind that was
   checked if and only if the digest had no row, or its row reads as that kind. Then, and also if
   the row reads as an index, every config and layer the puller is told of is there. In the one
   case that remains, an image row under which an index was pushed, the pull is complete exactly
   if the blobs of the row's image happen to be ready in the repository.
   */
  lemma PullAfterPush(env: Env, s: State, repo: Repo, reference: string, supplied: Option<string>, raw: Bytes)
    requires PushRefusal(env, s, repo, reference, supplied, raw).None?
    requires var d := env.codec.hash(raw);
             d in s.db.manifests ==> RowTrue(env, d, s.db.manifests[d]) && s.db.manifests[d].payload == raw
    ensures var doc := Manifests.Parse(env.codec, raw, supplied).value;
            var s' := Registry.PutManifest(env, s, repo, reference, supplied, raw);
            var pulled := Pulled(env, s'.db, doc.digest);
            var stored := doc.digest in s.db.manifests;
      && pulled.Some? && pulled.value.raw == raw
      && (pulled.value.kind == doc.kind <==> !stored || RowReadsAs(env, s.db.manifests[doc.digest], doc.kind))
      && (pulled.value.kind == doc.kind ==> pulled.value.items == doc.items)
      && (PullComplete(env, s', repo, pulled.value) <==>
            || pulled.value.kind == doc.kind
            || RowReadsAs(env, s.db.manifests[doc.digest], ImageIndex)
            || PullComplete(env, s, repo, Pulled(env, s.db, doc.digest).value))
  {
    hide Manifests.Parse, PushRefusal, Registry.PutManifest, RowReadsAs, BlobReady, DependencyRefusal;
    PushThenPull(env, s, repo, reference, supplied, raw);
    var doc := Manifests.Parse(env.codec, raw, supplied).value;
    ParsedDigest(env.codec, raw, supplied);
    CheckedIsComplete(env, s, repo, doc);
    if doc.digest in s.db.manifests {
      var row := s.db.manifests[doc.digest];
      var pulled := Pulled(env, s.db, doc.digest).value;
      ParsedDigest(env.codec, raw, Some(row.mediaType));
      RowKind(env, doc.digest, row, doc.kind);
      RowKind(env, doc.digest, row, ImageIndex);
      SameKindSameItems(env.codec, raw, supplied, Some(row.mediaType));
      IndexNeedsNothing(env.codec, raw, Some(row.mediaType));
    }
  }

  /** The dependency check leaves nothing to be missed. */
  lemma CheckedIsComplete(env: Env, s: State, repo: Repo, doc: Document)
    requires DependencyRefusal(s, repo, doc.items).None?
    ensures PullComplete(env, s, repo, doc)
  {
    hide BlobReady;
    forall item | item in doc.items && NeedsBlob(item)
      ensures BlobReady(s.t, repo, item)
    {
      var i :| 0 <= i < |doc.items| && doc.items[i] == item;
      assert ItemRefusal(s, repo, doc.items[i]).None?;
    }
  }

  lemma IndexNeedsNothing(codec: Codec, raw: Bytes, supplied: Option<string>)
    requires Manifests.Parse(codec, raw, supplied).Ok?
    ensures var doc := Manifests.Parse(codec, raw, supplied).value;
            doc.kind.ImageIndex? ==> forall item :: item in doc.items ==> !NeedsBlob(item)
  {
    hide Manifests.Parse, DecodeAll, SubjectOf, MediaType, KindOf;
    ParsedByKind(codec, raw, supplied);
  }

  // ---------------------------------------------------------------- runs

  /** The bytes were pushed as a manifest at some point of the run. */
  ghost predicate IsPushed(requests: seq<Request>, raw: Bytes) {
    exists i :: 0 <= i < |requests| && requests[i].PushManifest? && requests[i].raw == raw
  }

  /** No two different bodies pushed in the run have one digest. */
  ghost predicate NoCollisions(env: Env, requests: seq<Request>) {
    forall a, b :: IsPushed(requests, a) && IsPushed(requests, b) && env.codec.hash(a) == env.codec.hash(b) ==> a == b
  }

  lemma PushedBefore(requests: seq<Request>)
    requires requests != []
    ensures var (front, last) := (requests[..|requests| - 1], requests[|requests| - 1]);
      && (forall raw :: IsPushed(front, raw) ==> IsPushed(requests, raw))
      && (last.PushManifest? ==> IsPushed(requests, last.raw))
  {
    var front := requests[..|requests| - 1];
    forall raw | IsPushed(front, raw)
      ensures IsPushed(requests, raw)
    {
      var i :| 0 <= i < |front| && front[i].PushManifest? && front[i].raw == raw;
      assert requests[i] == front[i];
    }
  }

  lemma NoCollisionsBefore(env: Env, requests: seq<Request>)
    requires requests != [] && NoCollisions(env, requests)
    ensures NoCollisions(env, requests[..|requests| - 1])
  {
    PushedBefore(requests);
    hide IsPushed;
  }

  ghost predicate ReadSomehow(env: Env, doc: Document) {
    exists supplied :: Manifests.Parse(env.codec, doc.raw, supplied) == Ok(doc)
  }

  /** Rows hold what was pushed; a live manifest has a row, and was checked as a reading of what was pushed. */
  ghost predicate PayloadInv(env: Env, requests: seq<Request>, db: Database) {
    && (forall d :: d in db.manifests ==>
        RowTrue(env, d, db.manifests[d]) && IsPushed(requests, db.manifests[d].payload))
    && (forall link :: link in db.live ==>
          && link.1 in db.manifests && link in db.checked
          && db.checked[link].digest == link.1 && ReadSomehow(env, db.checked[link])
          && IsPushed(requests, db.checked[link].raw))
  }

  lemma PersistKeepsPayloads(env: Env, requests: seq<Request>, db: Database, repo: Repo, raw: Bytes,
                             supplied: Option<string>)
    requires PayloadInv(env, requests, db) && Manifests.Parse(env.codec, raw, supplied).Ok? && IsPushed(requests, raw)
    ensures PayloadInv(env, requests, Persist(db, repo, Manifests.Parse(env.codec, raw, supplied).value))
  {
    hide Manifests.Parse, InsertEdges, IsPushed;
    ReparseIsStable(env.codec, raw, supplied);
    var doc := Manifests.Parse(env.codec, raw, supplied).value;
    ParsedDigest(env.codec, raw, supplied);
    assert ReadSomehow(env, doc);
    hide ReadSomehow;
  }

  lemma MorePushes(env: Env, requests: seq<Request>, db: Database)
    requires requests != [] && PayloadInv(env, requests[..|requests| - 1], db)
    ensures PayloadInv(env, requests, db)
  {
    PushedBefore(requests);
    hide IsPushed, RowTrue, ReadSomehow;
  }

  lemma RequestKeepsPayloads(env: Env, requests: seq<Request>, s: State, r: Request)
    requires PayloadInv(env, requests, s.db) && (r.PushManifest? ==> IsPushed(requests, r.raw))
    ensures PayloadInv(env, requests, Registry.Apply(env, s, r).db)
  {
    hide ReadSomehow, RowTrue, IsPushed, InsertEdges, Manifests.Parse, Digests.Parse, DependencyRefusal, TagRefusal,
          CompleteUntil;
    match r
    case PushManifest(repo, reference, supplied, raw) =>
      if PushRefusal(env, s, repo, reference, supplied, raw).None? {
        PersistKeepsPayloads(env, requests, s.db, repo, raw, supplied);
        hide Persist;
      }
    case _ =>
  }

  lemma {:induction false} PayloadsAreTrue(env: Env, requests: seq<Request>)
    ensures PayloadInv(env, requests, Registry.Run(env, requests).db)
  {
    if requests != [] {
      var before := requests[..|requests| - 1];
      PayloadsAreTrue(env, before);
      var s := Registry.Run(env, before);
      MorePushes(env, requests, s.db);
      PushedBefore(requests);
      hide PayloadInv, Registry.Apply, IsPushed;
      RequestKeepsPayloads(env, requests, s, requests[|requests| - 1]);
    }
  }

  /**
   Pulls after any run in which no two pushed bodies collide. A live manifest is served with the
   bytes its repository checked. If the stored type gives them the kind that was checked, as it
   does whenever they name their own type, they read as the same descriptors. Then, and whenever
   they read as an index, all blobs the puller is told of are there.
   */
  lemma PulledManifestsAreComplete(env: Env, requests: seq<Request>, link: (Repo, Digest))
    requires NoCollisions(env, requests) && link in Registry.Run(env, requests).db.live
    ensures var s := Registry.Run(env, requests);
      && link in s.db.checked && Pulled(env, s.db, link.1).Some?
      && var (doc, pulled) := (s.db.checked[link], Pulled(env, s.db, link.1).value);
         && pulled.raw == doc.raw
         && (SelfDescribing(env.codec, doc.raw) ==> pulled.kind == doc.kind)
         && (pulled.kind == doc.kind ==> pulled.items == doc.items)
         && (pulled.kind == doc.kind || pulled.kind.ImageIndex? ==> PullComplete(env, s, link.0, pulled))
  {
    hide Registry.Run, Manifests.Parse, SelfDescribing, BlobReady, Holds, Consistent, Reach, IsPushed;
    var s := Registry.Run(env, requests);
    PayloadsAreTrue(env, requests);
    LiveManifestsAreComplete(env, requests);
    var doc, row := s.db.checked[link], s.db.manifests[link.1];
    var supplied :| Manifests.Parse(env.codec, doc.raw, supplied) == Ok(doc);
    ParsedDigest(env.codec, doc.raw, supplied);
    assert row.payload == doc.raw;
    ParsedDigest(env.codec, row.payload, Some(row.mediaType));
    SameKindSameItems(env.codec, doc.raw, supplied, Some(row.mediaType));
    IndexNeedsNothing(env.codec, doc.raw, Some(row.mediaType));
    if SelfDescribing(env.codec, doc.raw) {
      SelfDescribingReadsOneWay(env.codec, doc.raw, supplied, Some(row.mediaType));
    }
  }

  /**
   Resolution after any run. The text of a digest finds exactly that manifest while it is live in
   the repository, and nothing else; every other reference finds what the tag table holds.
   */
  lemma ResolvesExactly(env: Env, requests: seq<Request>, repo: Repo, d: Digest, tag: Tag)
    requires Digests.Parse(tag).Err?
    ensures var s := Registry.Run(env, requests);
      && Resolves(s, repo, Print(d)) == (if (repo, d) in s.db.live then Some(d) else None)
      && Resolves(s, repo, tag) == (if (repo, tag) in s.db.tags then Some(s.db.tags[(repo, tag)]) else None)
  {
    PayloadsAreTrue(env, requests);
    History.HistoryReplays(env, requests);
    ParseIffPrint(Print(d), d);
    hide Digests.Parse, Print, Registry.Run, RowTrue, ReadSomehow, IsPushed, History.Replay, History.TrueEvent;
    var s := Registry.Run(env, requests);
    assert (repo, tag) in s.db.tags ==> (repo, s.db.tags[(repo, tag)]) in s.db.live;
  }
}
