/**
 The registry at the granularity of whole requests: blobs, links, manifests, edges, tags and the
 tag history. Requests are functions on a state here; module Server runs them on tables.
 */
module Registry {
  import opened Common
  import opened Digests
  import opened Storage
  import opened BlobTables
  import opened Manifests

  const MANIFEST_LIMIT: nat := 8 * 1024 * 1024

  type Tag = string

  datatype EdgeKey = EdgeKey(parent: Digest, relationship: Relationship, position: nat, child: Digest)

  datatype EdgeRow = EdgeRow(mediaType: string, size: int, platform: Option<Json>, annotations: Option<Json>)

  datatype ManifestRow = ManifestRow(mediaType: string, artifactType: Option<string>, subject: Option<Digest>,
                                     payload: Bytes)

  datatype TagEvent = TagEvent(repo: Repo, tag: Tag, previous: Option<Digest>, current: Option<Digest>)

  /**
   `live` are the rows of `repository_manifests` without a deletion time. `checked` is a history
   variable: the document with which each manifest was last pushed to each repository.
   */
  datatype Database = Database(
    manifests: map<Digest, ManifestRow>,
    edges: map<EdgeKey, EdgeRow>,
    live: set<(Repo, Digest)>,
    tags: map<(Repo, Tag), Digest>,
    events: seq<TagEvent>,
    patterns: map<Repo, string>,
    checked: map<(Repo, Digest), Document>)

  datatype State = State(t: Tables, db: Database)

  /** Everything the registry takes from libraries. `matches` is None on an invalid pattern. */
  datatype Env = Env(codec: Codec, matches: (string, string) -> Option<bool>)

  datatype Error =
    | SizeInvalid
    | ManifestInvalid
    | DigestInvalid
    | ManifestBlobUnknown(missing: Item)
    | TagInvalid
    | TagImmutable
    | PatternInvalid

  // ---------------------------------------------------------------- manifest pushes

  /** The blob of `item` is linked in `repo` and committed at the descriptor's size. */
  predicate BlobReady(t: Tables, repo: Repo, item: Item) {
    && (repo, item.descriptor.digest) in t.links
    && IsLive(t, item.descriptor.digest)
    && t.blobs[item.descriptor.digest].size == item.descriptor.size
  }

  /** The child is there. A subject need not be: it may arrive after what refers to it. */
  predicate ChildReady(s: State, repo: Repo, item: Item) {
    match item.relationship
    case Manifest => (repo, item.descriptor.digest) in s.db.live
    case Subject => true
    case _ => BlobReady(s.t, repo, item)
  }

  function ItemRefusal(s: State, repo: Repo, item: Item): Option<Error> {
    if item.descriptor.size < 0 then Some(ManifestInvalid)
    else if !ChildReady(s, repo, item) then Some(ManifestBlobUnknown(item))
    else None
  }

  /** `validate_manifest_dependencies`: the first descriptor refused. */
  function DependencyRefusal(s: State, repo: Repo, items: seq<Item>): (r: Option<Error>)
    ensures r.None? <==> forall i :: 0 <= i < |items| ==> ItemRefusal(s, repo, items[i]).None?
    ensures r.Some? ==> exists i :: 0 <= i < |items| && ItemRefusal(s, repo, items[i]) == r
                                    && forall j :: 0 <= j < i ==> ItemRefusal(s, repo, items[j]).None?
  {
    if items == [] then None
    else
      var front := DependencyRefusal(s, repo, items[..|items| - 1]);
      if front.Some? then front else ItemRefusal(s, repo, items[|items| - 1])
  }

  function KeyOf(parent: Digest, item: Item): EdgeKey {
    EdgeKey(parent, item.relationship, item.position, item.descriptor.digest)
  }

  function RowOf(item: Item): EdgeRow {
    EdgeRow(item.descriptor.mediaType, item.descriptor.size, item.descriptor.platform, item.descriptor.annotations)
  }

  /** The inserts of `persist_manifest`; a row that exists is left alone. */
  function InsertEdges(edges: map<EdgeKey, EdgeRow>, parent: Digest, items: seq<Item>): (r: map<EdgeKey, EdgeRow>)
    ensures forall k :: k in edges ==> k in r && r[k] == edges[k]
    ensures forall i :: 0 <= i < |items| ==> KeyOf(parent, items[i]) in r
    ensures forall k :: k in r && k !in edges ==>
              exists i :: 0 <= i < |items| && k == KeyOf(parent, items[i]) && r[k] == RowOf(items[i])
  {
    if items == [] then edges
    else
      var n := |items| - 1;
      var front := InsertEdges(edges, parent, items[..n]);
      var key := KeyOf(parent, items[n]);
      assert forall i :: 0 <= i < n ==> items[..n][i] == items[i];
      if key in front then front else front[key := RowOf(items[n])]
  }

  predicate ValidTag(tag: string) {
    && 0 < |tag| <= 128
    && forall i :: 0 <= i < |tag| ==>
         || 'a' <= tag[i] <= 'z' || 'A' <= tag[i] <= 'Z' || '0' <= tag[i] <= '9'
         || (tag[i] in {'_', '.', '-'} && i > 0)
  }

  function Lookup<K, V>(m: map<K, V>, k: K): Option<V> {
    if k in m then Some(m[k]) else None
  }

  /** Moving `tag` to `digest` is refused when a different manifest holds it and the pattern matches. */
  function TagRefusal(env: Env, db: Database, repo: Repo, tag: Tag, digest: Digest): Option<Error> {
    if !ValidTag(tag) then Some(TagInvalid)
    else if (repo, tag) in db.tags && db.tags[(repo, tag)] != digest && repo in db.patterns then
      match env.matches(db.patterns[repo], tag)
      case None => Some(PatternInvalid)
      case Some(matched) => if matched then Some(TagImmutable) else None
    else None
  }

  /** The part of `persist_manifest` every push runs. */
  function Persist(db: Database, repo: Repo, doc: Document): Database {
    db.(manifests := if doc.digest in db.manifests then db.manifests
                     else db.manifests[doc.digest := ManifestRow(doc.mediaType, doc.artifactType,
                            if doc.subject.Some? then Some(doc.subject.value.digest) else None, doc.raw)],
        edges := InsertEdges(db.edges, doc.digest, doc.items),
        live := db.live + {(repo, doc.digest)},
        checked := db.checked[(repo, doc.digest) := doc])
  }

  /** The part a push under a tag runs besides. */
  function MoveTag(db: Database, repo: Repo, tag: Tag, digest: Digest): Database {
    var previous := Lookup(db.tags, (repo, tag));
    db.(tags := db.tags[(repo, tag) := digest],
        events := if previous == Some(digest) then db.events
                  else db.events + [TagEvent(repo, tag, previous, Some(digest))])
  }

  /** Why `put_manifest` refuses a push, if it does. */
  function PushRefusal(env: Env, s: State, repo: Repo, reference: string, supplied: Option<string>,
                       raw: Bytes): Option<Error> {
    if |raw| > MANIFEST_LIMIT then Some(SizeInvalid)
    else
      match Manifests.Parse(env.codec, raw, supplied)
      case Err(_) => Some(ManifestInvalid)
      case Ok(doc) =>
        var named := Digests.Parse(reference);
        if named.Ok? && named.value != doc.digest then Some(DigestInvalid)
        else
          var refusal := DependencyRefusal(s, repo, doc.items);
          if refusal.Some? then refusal
          else if named.Ok? then None
          else TagRefusal(env, s.db, repo, reference, doc.digest)
  }

  /** `put_manifest`. A refused push changes nothing at all. */
  function PutManifest(env: Env, s: State, repo: Repo, reference: string, supplied: Option<string>, raw: Bytes): State {
    if PushRefusal(env, s, repo, reference, supplied, raw).Some? then s
    else
      var doc := Manifests.Parse(env.codec, raw, supplied).value;
      var db := Persist(s.db, repo, doc);
      s.(db := if Digests.Parse(reference).Ok? then db else MoveTag(db, repo, reference, doc.digest))
  }

  // ---------------------------------------------------------------- deletes and collection

  /** The tags a delete takes along. */
  function TagsOf(tags: map<(Repo, Tag), Digest>, repo: Repo, digest: Digest): set<Tag> {
    set k | k in tags && k.0 == repo && tags[k] == digest :: k.1
  }

  /** `order` lists exactly the tags of `tags`, each once: one order in which rows may come back. */
  predicate Lists(order: seq<Tag>, tags: set<Tag>) {
    && (forall i :: 0 <= i < |order| ==> order[i] in tags)
    && (forall tag :: tag in tags ==> tag in order)
    && (forall i, j :: 0 <= i < j < |order| ==> order[i] != order[j])
  }

  function Untag(tags: map<(Repo, Tag), Digest>, repo: Repo, digest: Digest): map<(Repo, Tag), Digest> {
    map k | k in tags && !(k.0 == repo && tags[k] == digest) :: tags[k]
  }

  function Removals(repo: Repo, digest: Digest, order: seq<Tag>): (events: seq<TagEvent>)
    ensures |events| == |order|
    ensures forall i :: 0 <= i < |order| ==> events[i] == TagEvent(repo, order[i], Some(digest), None)
  {
    seq(|order|, i requires 0 <= i < |order| => TagEvent(repo, order[i], Some(digest), None))
  }

  /** `delete_manifest`, with the order in which the deleted tags come back from the database. */
  function DeleteManifest(s: State, repo: Repo, digest: Digest, order: seq<Tag>): State {
    if (repo, digest) !in s.db.live || !Lists(order, TagsOf(s.db.tags, repo, digest)) then s
    else
      s.(db := s.db.(live := s.db.live - {(repo, digest)},
                     tags := Untag(s.db.tags, repo, digest),
                     events := s.db.events + Removals(repo, digest, order)))
  }

  /** What a pull of `reference` finds: a digest names itself, a tag what it points to; both must be live. */
  function Resolves(s: State, repo: Repo, reference: string): Option<Digest> {
    var named := Digests.Parse(reference);
    var digest := if named.Ok? then Some(named.value) else Lookup(s.db.tags, (repo, reference));
    if digest.Some? && (repo, digest.value) in s.db.live && digest.value in s.db.manifests then digest else None
  }

  /** Some live manifest, in whatever repository, has the blob as config or layer. */
  predicate Referenced(db: Database, digest: Digest) {
    exists k | k in db.edges && k.child == digest && (k.relationship.Config? || k.relationship.Layer?) ::
      exists link | link in db.live :: link.1 == k.parent
  }

  /** How one turn of the collector's loop ends: as it should, undone, or broken off in between. */
  datatype Ending = Unlinked | Restored | LeftClaimed | LeftDeleted

  /** One turn of the collector's loop: claim, delete, then unlink, or restore if the delete failed. */
  function Collect(s: State, digest: Digest, oldEnough: bool, ending: Ending): State {
    if !IsLive(s.t, digest) || !oldEnough || Referenced(s.db, digest) then s
    else
      var claimed := Tombstone(s.t, digest);
      var deleted := DeleteObject(claimed, s.t.blobs[digest].key);
      s.(t := match ending
              case Unlinked => Unlink(deleted, digest)
              case Restored => Restore(claimed, digest)
              case LeftClaimed => claimed
              case LeftDeleted => deleted)
  }

  // ---------------------------------------------------------------- what the requests do

  /** The descriptor's blob or manifest is where a push to `repo` needs it. */
  ghost predicate InOrder(s: State, repo: Repo, item: Item) {
    var d := item.descriptor.digest;
    && item.descriptor.size >= 0
    && (item.relationship in {Config, Layer} ==>
        (repo, d) in s.t.links && d in s.t.blobs && s.t.blobs[d].status.Live?
        && s.t.blobs[d].size == item.descriptor.size)
    && (item.relationship.Manifest? ==> (repo, d) in s.db.live)
  }

  lemma InOrderIff(s: State, repo: Repo, items: seq<Item>)
    ensures DependencyRefusal(s, repo, items).None? <==> forall i :: 0 <= i < |items| ==> InOrder(s, repo, items[i])
  {
    assert forall i :: 0 <= i < |items| ==> (ItemRefusal(s, repo, items[i]).None? <==> InOrder(s, repo, items[i]));
    hide ItemRefusal, InOrder;
  }

  /**
   Exactly what is accepted: at most 8 MiB that parse, with every descriptor in order; a digest as
   reference must be the body's own, and a tag must be well formed and free to move.
   */
  lemma PushAcceptedIff(env: Env, s: State, repo: Repo, reference: string, supplied: Option<string>, raw: Bytes)
    ensures PushRefusal(env, s, repo, reference, supplied, raw).None? <==>
      && |raw| <= 0x80_0000
      && Manifests.Parse(env.codec, raw, supplied).Ok?
      && var doc := Manifests.Parse(env.codec, raw, supplied).value;
         && (forall i :: 0 <= i < |doc.items| ==> InOrder(s, repo, doc.items[i]))
         && match Digests.Parse(reference)
            case Ok(named) => named == doc.digest
            case Err(_) => WellFormedTag(reference) && MayMove(env, s.db, repo, reference, doc.digest)
  {
    if Manifests.Parse(env.codec, raw, supplied).Ok? {
      var doc := Manifests.Parse(env.codec, raw, supplied).value;
      InOrderIff(s, repo, doc.items);
      TagRefusedUnless(env, s.db, repo, reference, doc.digest);
    }
    hide Manifests.Parse, Digests.Parse, DependencyRefusal, InOrder, WellFormedTag, MayMove, TagRefusal;
  }

  /**
   What is refused, and why: the first thing wrong counts, in the order of size, body, digest,
   descriptors and tag; and of the descriptors the first.
   */
  lemma PushErrors(env: Env, s: State, repo: Repo, reference: string, supplied: Option<string>, raw: Bytes)
    ensures var refusal := PushRefusal(env, s, repo, reference, supplied, raw);
            var (parsed, named) := (Manifests.Parse(env.codec, raw, supplied), Digests.Parse(reference));
      if |raw| > 0x80_0000 then refusal == Some(SizeInvalid)
      else if parsed.Err? then refusal == Some(ManifestInvalid)
      else if named.Ok? && named.value != parsed.value.digest then refusal == Some(DigestInvalid)
      else
        var items := parsed.value.items;
        && (forall i :: 0 <= i < |items| && FirstWrong(s, repo, items, i) ==>
              refusal == Some(if items[i].descriptor.size < 0 then ManifestInvalid else ManifestBlobUnknown(items[i])))
        && ((forall i :: 0 <= i < |items| ==> InOrder(s, repo, items[i])) && named.Err? ==>
              refusal == TagRefusal(env, s.db, repo, reference, parsed.value.digest))
  {
    if Manifests.Parse(env.codec, raw, supplied).Ok? {
      var items := Manifests.Parse(env.codec, raw, supplied).value.items;
      InOrderIff(s, repo, items);
      FirstRefused(s, repo, items);
    }
    hide Manifests.Parse, Digests.Parse, DependencyRefusal, InOrder, TagRefusal;
  }

  ghost predicate FirstWrong(s: State, repo: Repo, items: seq<Item>, i: nat)
    requires i < |items|
  {
    !InOrder(s, repo, items[i]) && forall j :: 0 <= j < i ==> InOrder(s, repo, items[j])
  }

  lemma FirstRefused(s: State, repo: Repo, items: seq<Item>)
    ensures forall i :: 0 <= i < |items| && FirstWrong(s, repo, items, i) ==>
              DependencyRefusal(s, repo, items)
              == Some(if items[i].descriptor.size < 0 then ManifestInvalid else ManifestBlobUnknown(items[i]))
  {
    forall i | 0 <= i < |items| && FirstWrong(s, repo, items, i)
      ensures DependencyRefusal(s, repo, items)
              == Some(if items[i].descriptor.size < 0 then ManifestInvalid else ManifestBlobUnknown(items[i]))
    {
      assert ItemRefusal(s, repo, items[i]).Some?;
      var k :| 0 <= k < |items| && ItemRefusal(s, repo, items[k]) == DependencyRefusal(s, repo, items)
               && forall j :: 0 <= j < k ==> ItemRefusal(s, repo, items[j]).None?;
      assert k <= i;
      if k < i {
        assert InOrder(s, repo, items[k]);
      }
    }
  }

  /** A name that is no tag, a tag that is covered, and a pattern that is none have errors of their own. */
  lemma TagErrors(env: Env, db: Database, repo: Repo, tag: Tag, digest: Digest)
    ensures var refusal := TagRefusal(env, db, repo, tag, digest);
      && (!WellFormedTag(tag) <==> refusal == Some(TagInvalid))
      && (WellFormedTag(tag) && !MayMove(env, db, repo, tag, digest) ==>
            refusal == Some(if env.matches(db.patterns[repo], tag) == Some(true) then TagImmutable else PatternInvalid))
  {
    ValidTagIff(tag);
    hide ValidTag, WellFormedTag;
  }

  lemma TagRefusedUnless(env: Env, db: Database, repo: Repo, tag: Tag, digest: Digest)
    ensures TagRefusal(env, db, repo, tag, digest).None? <==>
              WellFormedTag(tag) && MayMove(env, db, repo, tag, digest)
  {
    ValidTagIff(tag);
    hide ValidTag, WellFormedTag;
  }

  /** The tag is not bound, or to `digest`, or the repository has no pattern, or a valid one that does not cover it. */
  ghost predicate MayMove(env: Env, db: Database, repo: Repo, tag: Tag, digest: Digest) {
    || (repo, tag) !in db.tags
    || db.tags[(repo, tag)] == digest
    || repo !in db.patterns
    || env.matches(db.patterns[repo], tag) == Some(false)
  }

  /** Up to 128 letters, digits, `_`, `.` and `-`, the first one a letter or a digit. */
  ghost predicate WellFormedTag(tag: string) {
    && 1 <= |tag| <= 128
    && IsAlphanumeric(tag[0])
    && forall i :: 1 <= i < |tag| ==> IsAlphanumeric(tag[i]) || tag[i] == '_' || tag[i] == '.' || tag[i] == '-'
  }

  ghost predicate IsAlphanumeric(c: char) {
    'a' <= c <= 'z' || 'A' <= c <= 'Z' || '0' <= c <= '9'
  }

  lemma ValidTagIff(tag: string)
    ensures ValidTag(tag) <==> WellFormedTag(tag)
  {
  }

  /** `row` under `k` says where the descriptor stands below `parent`, and what it says of the child. */
  ghost predicate Describes(k: EdgeKey, row: EdgeRow, parent: Digest, item: Item) {
    && k.parent == parent && k.relationship == item.relationship && k.position == item.position
    && k.child == item.descriptor.digest
    && row.mediaType == item.descriptor.mediaType && row.size == item.descriptor.size
    && row.platform == item.descriptor.platform && row.annotations == item.descriptor.annotations
  }

  /**
   What an accepted push adds besides its edges and its tag: a row unless there is one, with the
   columns of the document, and a live link.
   */
  lemma PushEffect(env: Env, s: State, repo: Repo, reference: string, supplied: Option<string>, raw: Bytes)
    requires PushRefusal(env, s, repo, reference, supplied, raw).None?
    ensures var doc := Manifests.Parse(env.codec, raw, supplied).value;
            var (db, db') := (s.db, PutManifest(env, s, repo, reference, supplied, raw).db);
      && PutManifest(env, s, repo, reference, supplied, raw).t == s.t && db'.patterns == db.patterns
      && (forall link :: link in db'.live <==> link in db.live || link == (repo, doc.digest))
      && (forall d :: d in db'.manifests <==> d in db.manifests || d == doc.digest)
      && (forall d :: d in db.manifests ==> db'.manifests[d] == db.manifests[d])
      && (doc.digest !in db.manifests ==>
            var row := db'.manifests[doc.digest];
            && row.mediaType == doc.mediaType && row.artifactType == doc.artifactType && row.payload == raw
            && (row.subject.Some? <==> doc.subject.Some?)
            && (row.subject.Some? ==> row.subject.value == doc.subject.value.digest))
  {
    ParsedDigest(env.codec, raw, supplied);
    hide Manifests.Parse, Digests.Parse, DependencyRefusal, TagRefusal, InsertEdges;
  }

  /** A push adds the edges of its descriptors that are not there, and leaves all others as they are. */
  lemma PushStoresEdges(env: Env, s: State, repo: Repo, reference: string, supplied: Option<string>, raw: Bytes)
    requires PushRefusal(env, s, repo, reference, supplied, raw).None?
    ensures var doc := Manifests.Parse(env.codec, raw, supplied).value;
            var (edges, edges') := (s.db.edges, PutManifest(env, s, repo, reference, supplied, raw).db.edges);
      && (forall k :: k in edges ==> k in edges' && edges'[k] == edges[k])
      && (forall k :: k in edges' && k !in edges ==>
            exists i :: 0 <= i < |doc.items| && Describes(k, edges'[k], doc.digest, doc.items[i]))
      && (forall i :: 0 <= i < |doc.items| ==>
            var item := doc.items[i];
            EdgeKey(doc.digest, item.relationship, item.position, item.descriptor.digest) in edges')
  {
    var doc := Manifests.Parse(env.codec, raw, supplied).value;
    InsertDescribes(s.db.edges, doc.digest, doc.items);
    hide Manifests.Parse, Digests.Parse, DependencyRefusal, TagRefusal, InsertEdges, Describes;
  }

  /** New edges are those of descriptors, column by column; every descriptor has one, and old ones stay. */
  lemma InsertDescribes(edges: map<EdgeKey, EdgeRow>, parent: Digest, items: seq<Item>)
    ensures var r := InsertEdges(edges, parent, items);
      && (forall k :: k in edges ==> k in r && r[k] == edges[k])
      && (forall k :: k in r && k !in edges ==>
            exists i :: 0 <= i < |items| && Describes(k, r[k], parent, items[i]))
      && (forall i :: 0 <= i < |items| ==>
            EdgeKey(parent, items[i].relationship, items[i].position, items[i].descriptor.digest) in r)
  {
    var r := InsertEdges(edges, parent, items);
    forall k | k in r && k !in edges
      ensures exists i :: 0 <= i < |items| && Describes(k, r[k], parent, items[i])
    {
      var i :| 0 <= i < |items| && k == KeyOf(parent, items[i]) && r[k] == RowOf(items[i]);
      assert Describes(k, r[k], parent, items[i]);
    }
    forall i | 0 <= i < |items|
      ensures EdgeKey(parent, items[i].relationship, items[i].position, items[i].descriptor.digest) in r
    {
      assert KeyOf(parent, items[i]) in r;
    }
  }

  /** A push under a tag binds it and logs a move; a push under a digest leaves tags and log alone. */
  lemma PushBindsTag(env: Env, s: State, repo: Repo, reference: string, supplied: Option<string>, raw: Bytes)
    requires PushRefusal(env, s, repo, reference, supplied, raw).None?
    ensures var doc := Manifests.Parse(env.codec, raw, supplied).value;
            var (db, db') := (s.db, PutManifest(env, s, repo, reference, supplied, raw).db);
            var k := (repo, reference);
      if Digests.Parse(reference).Ok? then db'.tags == db.tags && db'.events == db.events
      else
        && k in db'.tags && db'.tags[k] == doc.digest && db'.tags - {k} == db.tags - {k}
        && (k in db.tags && db.tags[k] == doc.digest ==> db'.events == db.events)
        && (k in db.tags && db.tags[k] != doc.digest ==>
              db'.events == db.events + [TagEvent(repo, reference, Some(db.tags[k]), Some(doc.digest))])
        && (k !in db.tags ==> db'.events == db.events + [TagEvent(repo, reference, None, Some(doc.digest))])
  {
    hide Manifests.Parse, Digests.Parse, DependencyRefusal, TagRefusal, InsertEdges;
  }

  /**
   A delete takes away one live link and the tags of the repository that point to the digest, and
   nothing else; what resolved to the digest there no longer resolves, everything else still does.
   */
  lemma DeleteRemoves(s: State, repo: Repo, digest: Digest, order: seq<Tag>)
    requires (repo, digest) in s.db.live && Lists(order, TagsOf(s.db.tags, repo, digest))
    ensures var (db, db') := (s.db, DeleteManifest(s, repo, digest, order).db);
      && (forall link :: link in db'.live <==> link in db.live && link != (repo, digest))
      && (forall k :: k in db'.tags <==> k in db.tags && (k.0 != repo || db.tags[k] != digest))
      && (forall k :: k in db'.tags ==> db'.tags[k] == db.tags[k])
      && db' == db.(live := db'.live, tags := db'.tags, events := db'.events)
      && DeleteManifest(s, repo, digest, order).t == s.t
    ensures var s' := DeleteManifest(s, repo, digest, order);
      forall r, reference :: Resolves(s', r, reference) ==
        if r == repo && Resolves(s, r, reference) == Some(digest) then None else Resolves(s, r, reference)
    ensures Resolves(DeleteManifest(s, repo, digest, order), repo, Print(digest)) == None
  {
    ParseIffPrint(Print(digest), digest);
    hide Digests.Parse, Lists, TagsOf, Print;
  }

  /** The four ways in which a turn of the collector can leave the tables. */
  lemma CollectEnds(s: State, digest: Digest)
    requires IsLive(s.t, digest) && !Referenced(s.db, digest)
    ensures forall ending :: Collect(s, digest, true, ending).db == s.db
    ensures Freed(s.t, Collect(s, digest, true, Unlinked).t, {digest})
    ensures Collect(s, digest, true, Restored) == s
    ensures var (key, claimed) := (s.t.blobs[digest].key, s.t.blobs[digest].(status := Tombstoned));
      && Collect(s, digest, true, LeftClaimed).t == s.t.(blobs := s.t.blobs[digest := claimed])
      && Collect(s, digest, true, LeftDeleted).t
         == s.t.(blobs := s.t.blobs[digest := claimed], objects := s.t.objects - {key})
  {
    CollectingFrees(s.t, digest);
    assert Restore(Tombstone(s.t, digest), digest).blobs == s.t.blobs;
    hide Referenced, Freed;
  }

  // ---------------------------------------------------------------- runs

  datatype Request =
    | FinishUpload(repo: Repo, key: Key, bytes: Bytes, expected: Digest, stop: Stop)
    | MountBlob(source: Repo, target: Repo, digest: Digest)
    | PushManifest(repo: Repo, reference: string, supplied: Option<string>, raw: Bytes)
    | RemoveManifest(repo: Repo, digest: Digest, order: seq<Tag>)
    | CollectBlob(digest: Digest, oldEnough: bool, ending: Ending)
    | SetPattern(repo: Repo, pattern: Option<string>)

  /** One request, atomically. A session's key is new when its upload is finished. */
  function Apply(env: Env, s: State, r: Request): State {
    match r
    case FinishUpload(repo, key, bytes, expected, stop) =>
      if FreshKey(s.t, key)
      then s.(t := CompleteUntil(env.codec.hash, s.t, repo, key, bytes, expected, stop).0)
      else s
    case MountBlob(source, target, digest) =>
      s.(t := Mount(s.t, source, target, digest))
    case PushManifest(repo, reference, supplied, raw) =>
      PutManifest(env, s, repo, reference, supplied, raw)
    case RemoveManifest(repo, digest, order) =>
      DeleteManifest(s, repo, digest, order)
    case CollectBlob(digest, oldEnough, ending) =>
      Collect(s, digest, oldEnough, ending)
    case SetPattern(repo, pattern) =>
      s.(db := s.db.(patterns := if pattern.Some? then s.db.patterns[repo := pattern.value]
                                 else s.db.patterns - {repo}))
  }

  const INITIAL: State := State(Tables(map[], map[], {}), Database(map[], map[], {}, map[], [], map[], map[]))

  function Run(env: Env, requests: seq<Request>): State {
    if requests == [] then INITIAL
    else Apply(env, Run(env, requests[..|requests| - 1]), requests[|requests| - 1])
  }

  // ---------------------------------------------------------------- reachability

  /** A live manifest's config and layers are linked, committed at the right size, and have edges. */
  ghost predicate Complete(s: State, link: (Repo, Digest)) {
    && link in s.db.checked
    && forall item :: item in s.db.checked[link].items && NeedsBlob(item) ==>
         BlobReady(s.t, link.0, item) && KeyOf(link.1, item) in s.db.edges
  }

  ghost predicate Reach(s: State) {
    forall link :: link in s.db.live ==> Complete(s, link)
  }

  /** A blob no live manifest refers to is not among the blobs of a live manifest. */
  lemma ReferencedByLive(s: State, link: (Repo, Digest), item: Item)
    requires link in s.db.live && Complete(s, link)
    requires item in s.db.checked[link].items && NeedsBlob(item)
    ensures Referenced(s.db, item.descriptor.digest)
  {
    var k := KeyOf(link.1, item);
    assert k in s.db.edges && link.1 == k.parent;
  }

  lemma CollectIsConsistent(env: Env, s: State, digest: Digest, oldEnough: bool, ending: Ending)
    requires Consistent(env.codec.hash, s.t)
    ensures Consistent(env.codec.hash, Collect(s, digest, oldEnough, ending).t)
  {
    hide Referenced;
  }

  lemma CollectKeeps(env: Env, s: State, digest: Digest, oldEnough: bool, ending: Ending)
    requires Consistent(env.codec.hash, s.t) && Reach(s)
    ensures var s' := Collect(s, digest, oldEnough, ending);
            Consistent(env.codec.hash, s'.t) && Reach(s')
  {
    var s' := Collect(s, digest, oldEnough, ending);
    CollectIsConsistent(env, s, digest, oldEnough, ending);
    hide Consistent;
    if s'.t != s.t {
      forall link | link in s'.db.live
        ensures Complete(s', link)
      {
        assert Complete(s, link);
        forall item | item in s.db.checked[link].items && NeedsBlob(item)
          ensures BlobReady(s'.t, link.0, item)
        {
          ReferencedByLive(s, link, item);
        }
      }
    }
  }

  lemma KeepsReach(s: State, s': State)
    requires Reach(s) && Keeps(s.t, s'.t) && s'.db == s.db
    ensures Reach(s')
  {
    forall link | link in s'.db.live
      ensures Complete(s', link)
    {
      assert Complete(s, link);
    }
  }

  lemma PushKeeps(env: Env, s: State, repo: Repo, reference: string, supplied: Option<string>, raw: Bytes)
    requires Reach(s)
    ensures Reach(PutManifest(env, s, repo, reference, supplied, raw))
  {
    var s' := PutManifest(env, s, repo, reference, supplied, raw);
    if PushRefusal(env, s, repo, reference, supplied, raw).None? {
      var doc := Manifests.Parse(env.codec, raw, supplied).value;
      forall link | link in s'.db.live
        ensures Complete(s', link)
      {
        if link != (repo, doc.digest) {
          assert Complete(s, link);
        } else {
          forall item | item in doc.items && NeedsBlob(item)
            ensures BlobReady(s'.t, repo, item) && KeyOf(doc.digest, item) in s'.db.edges
          {
            var i :| 0 <= i < |doc.items| && doc.items[i] == item;
            assert ItemRefusal(s, repo, doc.items[i]).None?;
          }
        }
      }
    }
  }

  lemma RequestKeeps(env: Env, s: State, r: Request)
    requires Consistent(env.codec.hash, s.t) && Reach(s)
    ensures Consistent(env.codec.hash, Apply(env, s, r).t) && Reach(Apply(env, s, r))
  {
    var s' := Apply(env, s, r);
    match r
    case FinishUpload(repo, key, bytes, expected, stop) =>
      if FreshKey(s.t, key) {
        CompletionKeeps(env.codec.hash, s.t, repo, key, bytes, expected, stop);
        hide Reach, Consistent;
        KeepsReach(s, s');
      }
    case MountBlob(source, target, digest) =>
      hide Reach;
      KeepsReach(s, s');
    case PushManifest(repo, reference, supplied, raw) =>
      PushKeeps(env, s, repo, reference, supplied, raw);
    case RemoveManifest(repo, digest, order) =>
      forall link | link in s'.db.live
        ensures Complete(s', link)
      {
        assert Complete(s, link);
      }
    case CollectBlob(digest, oldEnough, ending) =>
      CollectKeeps(env, s, digest, oldEnough, ending);
    case SetPattern(_, _) =>
      forall link | link in s'.db.live
        ensures Complete(s', link)
      {
        assert Complete(s, link);
      }
  }

  /**
   Reachability. After any run of requests, in any order and however completions and collections
   end, the config and layers of every live manifest are linked in its repository and committed
   at the descriptor's size, and their objects are there and have that digest and size.
   */
  lemma {:induction false} LiveManifestsAreComplete(env: Env, requests: seq<Request>)
    ensures var s := Run(env, requests);
      && Consistent(env.codec.hash, s.t) && Reach(s)
      && forall link, item ::
           link in s.db.live && item in s.db.checked[link].items && NeedsBlob(item) ==>
           && BlobReady(s.t, link.0, item)
           && Holds(env.codec.hash, s.t, item.descriptor.digest)
  {
    if requests != [] {
      var before := requests[..|requests| - 1];
      LiveManifestsAreComplete(env, before);
      RequestKeeps(env, Run(env, before), requests[|requests| - 1]);
    }
    var s := Run(env, requests);
    forall link, item | link in s.db.live && item in s.db.checked[link].items && NeedsBlob(item)
      ensures BlobReady(s.t, link.0, item) && Holds(env.codec.hash, s.t, item.descriptor.digest)
    {
      assert Complete(s, link);
    }
  }
}
