/**
 The edge table after any run. A digest keeps the edges of every way in which its body has been
 read by an accepted push; a body that names its own type is read in one way only.
 */
module Edges {
  import opened Common
  import opened Digests
  import opened BlobTables
  import opened Manifests
  import opened Registry
  import opened History
  import opened Pulls

  /** The digests that accepted pushes of the run had, each with the kind it was read as. */
  ghost function Readings(env: Env, requests: seq<Request>): set<(Digest, Kind)> {
    if requests == [] then {}
    else
      var front := requests[..|requests| - 1];
      var s := Registry.Run(env, front);
      var before := Readings(env, front);
      match requests[|requests| - 1]
      case PushManifest(repo, reference, supplied, raw) =>
        if PushRefusal(env, s, repo, reference, supplied, raw).Some? then before
        else
          var doc := Manifests.Parse(env.codec, raw, supplied).value;
          before + {(doc.digest, doc.kind)}
      case _ => before
  }

  /** The descriptors of a stored body, read as a manifest of this kind. */
  function ItemsAs(env: Env, db: Database, digest: Digest, kind: Kind): Option<seq<Item>> {
    if digest !in db.manifests || env.codec.json(db.manifests[digest].payload).None? then None
    else ItemsOf(env.codec, env.codec.json(db.manifests[digest].payload).value, kind)
  }

  /** Every descriptor has its edge. */
  ghost predicate Stored(edges: map<EdgeKey, EdgeRow>, parent: Digest, items: seq<Item>) {
    forall i :: 0 <= i < |items| ==>
      && KeyOf(parent, items[i]) in edges
      && Describes(KeyOf(parent, items[i]), edges[KeyOf(parent, items[i])], parent, items[i])
  }

  /** The edge is that of one of the descriptors. */
  ghost predicate IsEdgeOf(k: EdgeKey, items: seq<Item>) {
    exists i :: 0 <= i < |items| && k == KeyOf(k.parent, items[i])
  }

  ghost predicate ReadingStored(env: Env, db: Database, reading: (Digest, Kind)) {
    && ItemsAs(env, db, reading.0, reading.1).Some?
    && Stored(db.edges, reading.0, ItemsAs(env, db, reading.0, reading.1).value)
  }

  ghost predicate EdgeExplained(env: Env, db: Database, readings: set<(Digest, Kind)>, k: EdgeKey) {
    exists kind :: (k.parent, kind) in readings && ItemsAs(env, db, k.parent, kind).Some?
                   && IsEdgeOf(k, ItemsAs(env, db, k.parent, kind).value)
  }

  ghost predicate EdgeInv(env: Env, readings: set<(Digest, Kind)>, db: Database) {
    && (forall r :: r in readings ==> r.0 in db.manifests && ReadingStored(env, db, r))
    && (forall k :: k in db.edges ==> EdgeExplained(env, db, readings, k))
  }

  // ---------------------------------------------------------------- two readings of one body

  /** No descriptor but perhaps a subject. */
  ghost predicate Childless(items: seq<Item>) {
    forall i :: 0 <= i < |items| ==> items[i].relationship.Subject?
  }

  /** Relationships tell an image's children from an index's; the subject is the body's own. */
  lemma RelationshipsOf(codec: Codec, value: Json, kind: Kind, i: nat)
    requires ItemsOf(codec, value, kind).Some? && i < |ItemsOf(codec, value, kind).value|
    ensures var item := ItemsOf(codec, value, kind).value[i];
      && (kind.ImageManifest? ==> NeedsBlob(item) || item.relationship.Subject?)
      && (kind.ImageIndex? ==> item.relationship.Manifest? || item.relationship.Subject?)
      && (item.relationship.Subject? ==> SubjectOf(codec, value) == Ok(Some(item.descriptor)) && item.position == 0)
  {
    hide DecodeAll, SubjectOf;
  }

  lemma KindsShareSubjects(codec: Codec, value: Json, a: Kind, b: Kind, i: nat, j: nat)
    requires a != b && ItemsOf(codec, value, a).Some? && ItemsOf(codec, value, b).Some?
    requires i < |ItemsOf(codec, value, a).value| && j < |ItemsOf(codec, value, b).value|
    requires ItemsOf(codec, value, a).value[i].relationship == ItemsOf(codec, value, b).value[j].relationship
    ensures ItemsOf(codec, value, a).value[i] == ItemsOf(codec, value, b).value[j]
    ensures ItemsOf(codec, value, a).value[i].relationship.Subject?
  {
    hide ItemsOf, SubjectOf;
    RelationshipsOf(codec, value, a, i);
    RelationshipsOf(codec, value, b, j);
  }

  /** Edges with one key, from whatever readings, are edges of one descriptor. */
  lemma OneKeyOneItem(codec: Codec, value: Json, parent: Digest, a: Kind, b: Kind, i: nat, j: nat)
    requires ItemsOf(codec, value, a).Some? && ItemsOf(codec, value, b).Some?
    requires i < |ItemsOf(codec, value, a).value| && j < |ItemsOf(codec, value, b).value|
    requires KeyOf(parent, ItemsOf(codec, value, a).value[i]) == KeyOf(parent, ItemsOf(codec, value, b).value[j])
    ensures ItemsOf(codec, value, a).value[i] == ItemsOf(codec, value, b).value[j]
  {
    hide ItemsOf, GapFree;
    if a == b {
      ItemsIdentify(codec, value, a);
    } else {
      KindsShareSubjects(codec, value, a, b, i, j);
    }
  }

  // ---------------------------------------------------------------- one push

  /** Pushing a reading of the stored body stores it, whatever readings were stored before. */
  lemma InsertStores(env: Env, readings: set<(Digest, Kind)>, db: Database, d: Digest, kind: Kind)
    requires EdgeInv(env, readings, db) && ItemsAs(env, db, d, kind).Some?
    ensures Stored(InsertEdges(db.edges, d, ItemsAs(env, db, d, kind).value), d, ItemsAs(env, db, d, kind).value)
  {
    hide InsertEdges, ItemsOf, KeyOf, Describes;
    var value := env.codec.json(db.manifests[d].payload).value;
    var items := ItemsAs(env, db, d, kind).value;
    var edges := InsertEdges(db.edges, d, items);
    forall i | 0 <= i < |items|
      ensures Describes(KeyOf(d, items[i]), edges[KeyOf(d, items[i])], d, items[i])
    {
      var k := KeyOf(d, items[i]);
      KeyDescribes(d, items[i]);
      if k in db.edges {
        assert EdgeExplained(env, db, readings, k);
        var other :| (d, other) in readings && ItemsAs(env, db, d, other).Some?
                     && IsEdgeOf(k, ItemsAs(env, db, d, other).value);
        var j :| 0 <= j < |ItemsAs(env, db, d, other).value| && k == KeyOf(d, ItemsAs(env, db, d, other).value[j]);
        OneKeyOneItem(env.codec, value, d, kind, other, i, j);
        assert ReadingStored(env, db, (d, other));
      } else {
        var j :| 0 <= j < |items| && k == KeyOf(d, items[j]) && edges[k] == RowOf(items[j]);
        OneKeyOneItem(env.codec, value, d, kind, kind, i, j);
      }
    }
  }

  lemma KeyDescribes(d: Digest, item: Item)
    ensures KeyOf(d, item).parent == d && Describes(KeyOf(d, item), RowOf(item), d, item)
  {
  }

  /** A push of a body keeps the edges explained, and its reading is stored. */
  lemma PersistKeepsEdges(env: Env, readings: set<(Digest, Kind)>, db: Database, repo: Repo, raw: Bytes,
                          supplied: Option<string>)
    requires EdgeInv(env, readings, db) && Manifests.Parse(env.codec, raw, supplied).Ok?
    requires env.codec.hash(raw) in db.manifests ==> db.manifests[env.codec.hash(raw)].payload == raw
    ensures var doc := Manifests.Parse(env.codec, raw, supplied).value;
            EdgeInv(env, readings + {(doc.digest, doc.kind)}, Persist(db, repo, doc))
  {
    hide Manifests.Parse, InsertEdges, ItemsAs, EdgeInv, Stored;
    var doc := Manifests.Parse(env.codec, raw, supplied).value;
    var db' := Persist(db, repo, doc);
    var middle := db.(manifests := db'.manifests);
    RowsAfterPush(env, db, repo, raw, supplied);
    RowsBesideEdges(env, readings, db, middle);
    InsertStores(env, readings, middle, doc.digest, doc.kind);
    InsertKeepsReadings(env, readings, middle, db', doc);
    InsertExplains(env, readings, middle, db', doc);
    BothParts(env, readings + {(doc.digest, doc.kind)}, db');
  }

  lemma BothParts(env: Env, readings: set<(Digest, Kind)>, db: Database)
    requires forall r :: r in readings ==> r.0 in db.manifests && ReadingStored(env, db, r)
    requires forall k :: k in db.edges ==> EdgeExplained(env, db, readings, k)
    ensures EdgeInv(env, readings, db)
  {
    hide ReadingStored, EdgeExplained;
  }

  /** A push changes the reading of no body that was stored, and its own body reads as it was parsed. */
  lemma RowsAfterPush(env: Env, db: Database, repo: Repo, raw: Bytes, supplied: Option<string>)
    requires Manifests.Parse(env.codec, raw, supplied).Ok?
    requires env.codec.hash(raw) in db.manifests ==> db.manifests[env.codec.hash(raw)].payload == raw
    ensures var doc := Manifests.Parse(env.codec, raw, supplied).value;
            var middle := db.(manifests := Persist(db, repo, doc).manifests);
      && (forall d :: d in db.manifests ==> d in middle.manifests)
      && (forall d, kind :: d in db.manifests ==> ItemsAs(env, middle, d, kind) == ItemsAs(env, db, d, kind))
      && doc.digest in middle.manifests && ItemsAs(env, middle, doc.digest, doc.kind) == Some(doc.items)
  {
    hide Manifests.Parse, InsertEdges, ItemsOf;
    ParsedDigest(env.codec, raw, supplied);
    ParsedByKind(env.codec, raw, supplied);
  }

  lemma RowsBesideEdges(env: Env, readings: set<(Digest, Kind)>, db: Database, db': Database)
    requires EdgeInv(env, readings, db) && db'.edges == db.edges
    requires forall d :: d in db.manifests ==> d in db'.manifests
    requires forall d, kind :: d in db.manifests ==> ItemsAs(env, db', d, kind) == ItemsAs(env, db, d, kind)
    ensures EdgeInv(env, readings, db')
  {
    hide ItemsAs, Stored, IsEdgeOf;
    forall k | k in db'.edges
      ensures EdgeExplained(env, db', readings, k)
    {
      assert EdgeExplained(env, db, readings, k);
    }
    forall r | r in readings
      ensures ReadingStored(env, db', r)
    {
      assert ReadingStored(env, db, r);
    }
  }

  lemma InsertKeepsReadings(env: Env, readings: set<(Digest, Kind)>, db: Database, db': Database, doc: Document)
    requires EdgeInv(env, readings, db) && db'.manifests == db.manifests && doc.digest in db.manifests
    requires db'.edges == InsertEdges(db.edges, doc.digest, doc.items)
    requires ItemsAs(env, db, doc.digest, doc.kind) == Some(doc.items) && Stored(db'.edges, doc.digest, doc.items)
    ensures forall r :: r in readings + {(doc.digest, doc.kind)} ==> r.0 in db'.manifests && ReadingStored(env, db', r)
  {
    hide InsertEdges, KeyOf, Describes, EdgeExplained, ItemsOf;
    forall r | r in readings + {(doc.digest, doc.kind)}
      ensures ReadingStored(env, db', r)
    {
      assert ItemsAs(env, db', r.0, r.1) == ItemsAs(env, db, r.0, r.1);
      if r in readings {
        assert ReadingStored(env, db, r);
      }
    }
  }

  lemma InsertExplains(env: Env, readings: set<(Digest, Kind)>, db: Database, db': Database, doc: Document)
    requires EdgeInv(env, readings, db) && db'.manifests == db.manifests
    requires db'.edges == InsertEdges(db.edges, doc.digest, doc.items)
    requires ItemsAs(env, db, doc.digest, doc.kind) == Some(doc.items)
    ensures forall k :: k in db'.edges ==> EdgeExplained(env, db', readings + {(doc.digest, doc.kind)}, k)
  {
    hide InsertEdges, RowOf, ItemsOf, ReadingStored;
    var more := readings + {(doc.digest, doc.kind)};
    assert forall d, kind :: ItemsAs(env, db', d, kind) == ItemsAs(env, db, d, kind);
    hide ItemsAs;
    forall k | k in db'.edges
      ensures EdgeExplained(env, db', more, k)
    {
      if k in db.edges {
        assert EdgeExplained(env, db, readings, k);
        var kind :| (k.parent, kind) in readings && ItemsAs(env, db, k.parent, kind).Some?
                    && IsEdgeOf(k, ItemsAs(env, db, k.parent, kind).value);
        assert (k.parent, kind) in more;
      } else {
        assert IsEdgeOf(k, doc.items) && k.parent == doc.digest;
        assert (k.parent, doc.kind) in more;
      }
    }
  }

  // ---------------------------------------------------------------- runs

  lemma {:induction false} EdgesAreExplained(env: Env, requests: seq<Request>)
    requires NoCollisions(env, requests)
    ensures EdgeInv(env, Readings(env, requests), Registry.Run(env, requests).db)
  {
    if requests != [] {
      var before := requests[..|requests| - 1];
      NoCollisionsBefore(env, requests);
      EdgesAreExplained(env, before);
      PayloadsAreTrue(env, before);
      PushedBefore(requests);
      var s := Registry.Run(env, before);
      hide EdgeInv, PayloadInv, NoCollisions, IsPushed, PushRefusal, Manifests.Parse, Persist, Registry.PutManifest;
      match requests[|requests| - 1]
      case PushManifest(repo, reference, supplied, raw) =>
        PushIsPersist(env, s, repo, reference, supplied, raw);
        if PushRefusal(env, s, repo, reference, supplied, raw).None? {
          RowIsRaw(env, requests, s.db, raw);
          PersistKeepsEdges(env, Readings(env, before), s.db, repo, raw, supplied);
          var doc := Manifests.Parse(env.codec, raw, supplied).value;
          SameRowsAndEdges(env, Readings(env, requests), Persist(s.db, repo, doc), Registry.Run(env, requests).db);
        }
      case _ =>
        OthersKeepRows(env, s, requests[|requests| - 1]);
        SameRowsAndEdges(env, Readings(env, before), s.db, Registry.Run(env, requests).db);
    }
  }

  lemma RowIsRaw(env: Env, requests: seq<Request>, db: Database, raw: Bytes)
    requires requests != [] && NoCollisions(env, requests) && PayloadInv(env, requests[..|requests| - 1], db)
    requires IsPushed(requests, raw)
    ensures env.codec.hash(raw) in db.manifests ==> db.manifests[env.codec.hash(raw)].payload == raw
  {
    PushedBefore(requests);
    hide IsPushed;
  }

  /** Nothing but rows and edges matters. */
  lemma SameRowsAndEdges(env: Env, readings: set<(Digest, Kind)>, db: Database, db': Database)
    requires EdgeInv(env, readings, db) && db'.edges == db.edges && db'.manifests == db.manifests
    ensures EdgeInv(env, readings, db')
  {
    assert forall d, kind :: ItemsAs(env, db', d, kind) == ItemsAs(env, db, d, kind);
    hide ItemsAs;
    RowsBesideEdges(env, readings, db, db');
  }

  lemma OthersKeepRows(env: Env, s: State, r: Request)
    requires !r.PushManifest?
    ensures var s' := Registry.Apply(env, s, r); s'.db.edges == s.db.edges && s'.db.manifests == s.db.manifests
  {
    hide CompleteUntil;
  }

  lemma PushIsPersist(env: Env, s: State, repo: Repo, reference: string, supplied: Option<string>, raw: Bytes)
    ensures var s' := Registry.PutManifest(env, s, repo, reference, supplied, raw);
      if PushRefusal(env, s, repo, reference, supplied, raw).Some? then s' == s
      else
        && Manifests.Parse(env.codec, raw, supplied).Ok?
        && var db := Persist(s.db, repo, Manifests.Parse(env.codec, raw, supplied).value);
           s'.db.edges == db.edges && s'.db.manifests == db.manifests && s'.db.live == db.live
           && s'.db.checked == db.checked
  {
    hide Manifests.Parse, Digests.Parse, DependencyRefusal, TagRefusal, Persist;
  }

  /** What is pulled, and what was checked last in each repository, are among the readings. */
  ghost predicate ReadingsCover(env: Env, readings: set<(Digest, Kind)>, db: Database) {
    && (forall d :: d in db.manifests ==> Pulled(env, db, d).Some? && (d, Pulled(env, db, d).value.kind) in readings)
    && (forall link :: link in db.live ==> link in db.checked && (link.1, db.checked[link].kind) in readings)
  }

  lemma PushKeepsCover(env: Env, readings: set<(Digest, Kind)>, s: State, repo: Repo, reference: string,
                       supplied: Option<string>, raw: Bytes)
    requires ReadingsCover(env, readings, s.db) && PushRefusal(env, s, repo, reference, supplied, raw).None?
    ensures var doc := Manifests.Parse(env.codec, raw, supplied).value;
            ReadingsCover(env, readings + {(doc.digest, doc.kind)},
                          Registry.PutManifest(env, s, repo, reference, supplied, raw).db)
  {
    hide Manifests.Parse, PushRefusal, Registry.PutManifest, Pulled;
    PushedReadings(env, s, repo, reference, supplied, raw);
  }

  lemma {:induction false} ReadingsOfRows(env: Env, requests: seq<Request>)
    ensures ReadingsCover(env, Readings(env, requests), Registry.Run(env, requests).db)
  {
    if requests != [] {
      var before, last := requests[..|requests| - 1], requests[|requests| - 1];
      ReadingsOfRows(env, before);
      var s := Registry.Run(env, before);
      hide PushRefusal, Manifests.Parse, Pulled, Registry.PutManifest, ReadingsCover;
      if last.PushManifest? {
        PushIsPersist(env, s, last.repo, last.reference, last.supplied, last.raw);
        if PushRefusal(env, s, last.repo, last.reference, last.supplied, last.raw).None? {
          PushKeepsCover(env, Readings(env, before), s, last.repo, last.reference, last.supplied, last.raw);
        }
      } else {
        OthersKeepCover(env, Readings(env, before), s, last);
      }
    }
  }

  lemma OthersKeepCover(env: Env, readings: set<(Digest, Kind)>, s: State, r: Request)
    requires !r.PushManifest? && ReadingsCover(env, readings, s.db)
    ensures ReadingsCover(env, readings, Registry.Apply(env, s, r).db)
  {
    hide Pulled, Registry.Apply;
    OthersKeepPulls(env, s, r);
  }

  /** A push leaves every other pull and every other check as it was. */
  lemma PushedReadings(env: Env, s: State, repo: Repo, reference: string, supplied: Option<string>, raw: Bytes)
    ensures var s' := Registry.PutManifest(env, s, repo, reference, supplied, raw);
      if PushRefusal(env, s, repo, reference, supplied, raw).Some? then s' == s
      else
        var doc := Manifests.Parse(env.codec, raw, supplied).value;
        && (forall d :: d in s'.db.manifests <==> d in s.db.manifests || d == doc.digest)
        && (forall d :: d in s.db.manifests ==> Pulled(env, s'.db, d) == Pulled(env, s.db, d))
        && (doc.digest !in s.db.manifests ==> Pulled(env, s'.db, doc.digest) == Some(doc))
        && s'.db.live == s.db.live + {(repo, doc.digest)}
        && s'.db.checked == s.db.checked[(repo, doc.digest) := doc]
  {
    hide Manifests.Parse, PushRefusal, Registry.PutManifest, InsertEdges, Pulled;
    PushIsPersist(env, s, repo, reference, supplied, raw);
    if PushRefusal(env, s, repo, reference, supplied, raw).None? {
      PushThenPull(env, s, repo, reference, supplied, raw);
      var s' := Registry.PutManifest(env, s, repo, reference, supplied, raw);
      forall d | d in s.db.manifests
        ensures Pulled(env, s'.db, d) == Pulled(env, s.db, d)
      {
        SameRowSamePull(env, s.db, s'.db, d);
      }
    }
  }

  lemma SameRowSamePull(env: Env, db: Database, db': Database, d: Digest)
    requires d in db.manifests && d in db'.manifests && db'.manifests[d] == db.manifests[d]
    ensures Pulled(env, db', d) == Pulled(env, db, d)
  {
    hide Manifests.Parse;
  }

  lemma OthersKeepPulls(env: Env, s: State, r: Request)
    requires !r.PushManifest?
    ensures var s' := Registry.Apply(env, s, r);
      s'.db.manifests == s.db.manifests && s'.db.checked == s.db.checked && s'.db.live <= s.db.live
      && forall d :: Pulled(env, s'.db, d) == Pulled(env, s.db, d)
  {
    hide CompleteUntil, Manifests.Parse;
  }

  /**
   Edge table fidelity, after any run in which no two pushed bodies collide. Take any way in which
   an accepted push has read a digest. The digest's edges are in bijection with that reading's
   descriptors exactly if no accepted push has read it as the other kind, with children.
   */
  lemma EdgesAreDescriptors(env: Env, requests: seq<Request>, d: Digest, kind: Kind)
    requires NoCollisions(env, requests) && (d, kind) in Readings(env, requests)
    ensures var db := Registry.Run(env, requests).db;
      && ItemsAs(env, db, d, kind).Some?
      && Stored(db.edges, d, ItemsAs(env, db, d, kind).value)
      && (EdgesAre(db.edges, d, ItemsAs(env, db, d, kind).value) <==>
            forall other :: (d, other) in Readings(env, requests) && other != kind ==>
              ItemsAs(env, db, d, other).Some? && Childless(ItemsAs(env, db, d, other).value))
  {
    var db := Registry.Run(env, requests).db;
    var readings := Readings(env, requests);
    EdgesAreExplained(env, requests);
    hide Registry.Run, Readings, NoCollisions;
    assert ReadingStored(env, db, (d, kind));
    if forall other :: (d, other) in readings && other != kind ==> Childless(ItemsAs(env, db, d, other).value) {
      OneReading(env, readings, db, d, kind);
    }
    if EdgesAre(db.edges, d, ItemsAs(env, db, d, kind).value) {
      forall other | (d, other) in readings && other != kind
        ensures ItemsAs(env, db, d, other).Some? && Childless(ItemsAs(env, db, d, other).value)
      {
        ExtraEdges(env, readings, db, d, kind, other);
      }
    }
  }

  /** Pushing a reading again, from whatever repository, adds nothing and changes nothing. */
  lemma PushingAgainAddsNothing(env: Env, requests: seq<Request>, d: Digest, kind: Kind)
    requires NoCollisions(env, requests) && (d, kind) in Readings(env, requests)
    ensures var db := Registry.Run(env, requests).db;
      ItemsAs(env, db, d, kind).Some? && InsertEdges(db.edges, d, ItemsAs(env, db, d, kind).value) == db.edges
  {
    EdgesAreDescriptors(env, requests, d, kind);
    hide Registry.Run, Readings, NoCollisions, ItemsAs, EdgesAre, InsertEdges;
    var db := Registry.Run(env, requests).db;
    PresentEdgesStay(db.edges, d, ItemsAs(env, db, d, kind).value);
  }

  lemma OneReading(env: Env, readings: set<(Digest, Kind)>, db: Database, d: Digest, kind: Kind)
    requires EdgeInv(env, readings, db) && (d, kind) in readings
    requires ItemsAs(env, db, d, kind).Some?
    requires forall other :: (d, other) in readings && other != kind && ItemsAs(env, db, d, other).Some? ==>
               Childless(ItemsAs(env, db, d, other).value)
    ensures EdgesAre(db.edges, d, ItemsAs(env, db, d, kind).value)
  {
    hide ItemsOf;
    var value := env.codec.json(db.manifests[d].payload).value;
    var items := ItemsAs(env, db, d, kind).value;
    assert ReadingStored(env, db, (d, kind));
    ItemsIdentify(env.codec, value, kind);
    forall k | k in db.edges && k.parent == d
      ensures exists i :: 0 <= i < |items| && k == KeyOf(d, items[i])
    {
      assert EdgeExplained(env, db, readings, k);
      var other :| (d, other) in readings && ItemsAs(env, db, d, other).Some?
                   && IsEdgeOf(k, ItemsAs(env, db, d, other).value);
      if other != kind {
        SubjectInBoth(env.codec, value, d, kind, other, k);
      }
    }
  }

  /** An edge of a childless reading is the subject's, and every reading has it. */
  lemma SubjectInBoth(codec: Codec, value: Json, d: Digest, kind: Kind, other: Kind, k: EdgeKey)
    requires ItemsOf(codec, value, kind).Some? && ItemsOf(codec, value, other).Some?
    requires k.parent == d && IsEdgeOf(k, ItemsOf(codec, value, other).value)
             && Childless(ItemsOf(codec, value, other).value)
    ensures IsEdgeOf(k, ItemsOf(codec, value, kind).value)
  {
    var items, others := ItemsOf(codec, value, kind).value, ItemsOf(codec, value, other).value;
    var j :| 0 <= j < |others| && k == KeyOf(d, others[j]);
    RelationshipsOf(codec, value, other, j);
    var i := |items| - 1;
    hide Children, SubjectOf;
    assert items[i] == Item(Subject, 0, others[j].descriptor) == others[j];
  }

  /** A child of another reading has an edge that this reading does not explain. */
  lemma ExtraEdges(env: Env, readings: set<(Digest, Kind)>, db: Database, d: Digest, kind: Kind, other: Kind)
    requires EdgeInv(env, readings, db) && (d, kind) in readings && (d, other) in readings && other != kind
    requires ItemsAs(env, db, d, kind).Some? && EdgesAre(db.edges, d, ItemsAs(env, db, d, kind).value)
    ensures ItemsAs(env, db, d, other).Some? && Childless(ItemsAs(env, db, d, other).value)
  {
    hide ItemsOf;
    assert ReadingStored(env, db, (d, other));
    var value := env.codec.json(db.manifests[d].payload).value;
    var items, others := ItemsAs(env, db, d, kind).value, ItemsAs(env, db, d, other).value;
    forall j | 0 <= j < |others|
      ensures others[j].relationship.Subject?
    {
      var k := KeyOf(d, others[j]);
      assert k in db.edges && k.parent == d;
      var i :| 0 <= i < |items| && k == KeyOf(d, items[i]);
      KindsShareSubjects(env.codec, value, kind, other, i, j);
    }
  }

  /** A body that names its own type is read in one way. */
  lemma {:induction false} SelfDescribingIsReadOnce(env: Env, requests: seq<Request>, d: Digest, a: Kind, b: Kind)
    requires NoCollisions(env, requests)
    requires (d, a) in Readings(env, requests) && (d, b) in Readings(env, requests)
    requires forall raw :: IsPushed(requests, raw) && env.codec.hash(raw) == d ==> SelfDescribing(env.codec, raw)
    ensures a == b
  {
    ReadingIsPushed(env, requests, d, a);
    ReadingIsPushed(env, requests, d, b);
    hide NoCollisions, Readings, SelfDescribing, Manifests.Parse, IsPushed;
    var x, s :| IsPushed(requests, x) && IsReading(env, x, s, d, a);
    var y, t :| IsPushed(requests, y) && IsReading(env, y, t, d, b);
    SameBytes(env, requests, x, y);
    SelfDescribingReadsOneWay(env.codec, x, s, t);
  }

  ghost predicate IsReading(env: Env, raw: Bytes, supplied: Option<string>, d: Digest, kind: Kind) {
    var parsed := Manifests.Parse(env.codec, raw, supplied);
    env.codec.hash(raw) == d && parsed.Ok? && parsed.value.kind == kind
  }

  lemma SameBytes(env: Env, requests: seq<Request>, x: Bytes, y: Bytes)
    requires NoCollisions(env, requests) && IsPushed(requests, x) && IsPushed(requests, y)
    requires env.codec.hash(x) == env.codec.hash(y)
    ensures x == y
  {
    hide IsPushed;
  }

  lemma {:induction false} ReadingIsPushed(env: Env, requests: seq<Request>, d: Digest, kind: Kind)
    requires (d, kind) in Readings(env, requests)
    ensures exists raw, supplied :: IsPushed(requests, raw) && IsReading(env, raw, supplied, d, kind)
  {
    var before := requests[..|requests| - 1];
    PushedBefore(requests);
    hide IsPushed, PushRefusal, Manifests.Parse, Registry.Run;
    if (d, kind) in Readings(env, before) {
      ReadingIsPushed(env, before, d, kind);
    } else {
      var last := requests[|requests| - 1];
      PushThenPull(env, Registry.Run(env, before), last.repo, last.reference, last.supplied, last.raw);
      assert IsReading(env, last.raw, last.supplied, d, kind);
    }
  }

  lemma PulledItems(env: Env, db: Database, d: Digest)
    requires Pulled(env, db, d).Some?
    ensures ItemsAs(env, db, d, Pulled(env, db, d).value.kind) == Some(Pulled(env, db, d).value.items)
  {
    hide Manifests.Parse, ItemsOf;
    ParsedByKind(env.codec, db.manifests[d].payload, Some(db.manifests[d].mediaType));
  }

  /**
   Every edge belongs to a manifest row; and for a row whose body names its own type, the edges are
   in bijection with the descriptors that a pull reads.
   */
  lemma StoredEdgesAreDescriptors(env: Env, requests: seq<Request>, d: Digest)
    requires NoCollisions(env, requests)
    ensures var db := Registry.Run(env, requests).db;
      && (forall k :: k in db.edges ==> k.parent in db.manifests)
      && (d in db.manifests && SelfDescribing(env.codec, db.manifests[d].payload) ==>
            Pulled(env, db, d).Some? && EdgesAre(db.edges, d, Pulled(env, db, d).value.items))
  {
    var db := Registry.Run(env, requests).db;
    var readings := Readings(env, requests);
    EdgesAreExplained(env, requests);
    hide Registry.Run, Readings, NoCollisions, Manifests.Parse, SelfDescribing, EdgesAre, Pulled, ItemsAs, Stored,
          IsPushed, RowTrue;
    forall k | k in db.edges
      ensures k.parent in db.manifests
    {
      assert EdgeExplained(env, db, readings, k);
    }
    ReadingsOfRows(env, requests);
    PayloadsAreTrue(env, requests);
    if d in db.manifests && SelfDescribing(env.codec, db.manifests[d].payload) {
      var kind := Pulled(env, db, d).value.kind;
      PulledItems(env, db, d);
      EdgesAreDescriptors(env, requests, d, kind);
      NamedTypeOnly(env, requests, db, d);
      forall other | (d, other) in readings
        ensures other == kind
      {
        SelfDescribingIsReadOnce(env, requests, d, kind, other);
      }
    }
  }

  lemma NamedTypeOnly(env: Env, requests: seq<Request>, db: Database, d: Digest)
    requires NoCollisions(env, requests) && PayloadInv(env, requests, db)
    requires d in db.manifests && SelfDescribing(env.codec, db.manifests[d].payload)
    ensures forall raw :: IsPushed(requests, raw) && env.codec.hash(raw) == d ==> SelfDescribing(env.codec, raw)
  {
    hide IsPushed, SelfDescribing, Manifests.Parse;
    forall raw | IsPushed(requests, raw) && env.codec.hash(raw) == d
      ensures SelfDescribing(env.codec, raw)
    {
      SameBytes(env, requests, raw, db.manifests[d].payload);
    }
  }

  // ---------------------------------------------------------------- what the collector spares

  /** A manifest live somewhere has been read with the blob as its config or one of its layers. */
  ghost predicate InUse(env: Env, readings: set<(Digest, Kind)>, db: Database, blob: Digest) {
    exists link, kind, item :: link in db.live && (link.1, kind) in readings && Reads(env, db, link.1, kind, item)
                               && item.descriptor.digest == blob && item.relationship in {Config, Layer}
  }

  /** `item` is among the descriptors of the stored body, read as this kind. */
  ghost predicate Reads(env: Env, db: Database, d: Digest, kind: Kind, item: Item) {
    ItemsAs(env, db, d, kind).Some? && item in ItemsAs(env, db, d, kind).value
  }

  /** The collector's query, over edges and live links, finds exactly the blobs in use. */
  lemma ReferencedIffInUse(env: Env, requests: seq<Request>, blob: Digest)
    requires NoCollisions(env, requests)
    ensures var db := Registry.Run(env, requests).db;
            Referenced(db, blob) <==> InUse(env, Readings(env, requests), db, blob)
  {
    var db, readings := Registry.Run(env, requests).db, Readings(env, requests);
    EdgesAreExplained(env, requests);
    hide Registry.Run, Readings, NoCollisions, EdgeInv, Referenced, InUse;
    if Referenced(db, blob) {
      ReferencedIsInUse(env, readings, db, blob);
    }
    if InUse(env, readings, db, blob) {
      InUseIsReferenced(env, readings, db, blob);
    }
  }

  lemma ReferencedIsInUse(env: Env, readings: set<(Digest, Kind)>, db: Database, blob: Digest)
    requires EdgeInv(env, readings, db) && Referenced(db, blob)
    ensures InUse(env, readings, db, blob)
  {
    hide ItemsAs, ReadingStored;
    var k :| k in db.edges && k.child == blob && (k.relationship.Config? || k.relationship.Layer?)
             && exists link :: link in db.live && link.1 == k.parent;
    var link :| link in db.live && link.1 == k.parent;
    assert EdgeExplained(env, db, readings, k);
    var kind :| (k.parent, kind) in readings && ItemsAs(env, db, k.parent, kind).Some?
                && IsEdgeOf(k, ItemsAs(env, db, k.parent, kind).value);
    var items := ItemsAs(env, db, k.parent, kind).value;
    var i :| 0 <= i < |items| && k == KeyOf(k.parent, items[i]);
    assert Reads(env, db, link.1, kind, items[i]) && items[i].descriptor.digest == blob;
  }

  lemma InUseIsReferenced(env: Env, readings: set<(Digest, Kind)>, db: Database, blob: Digest)
    requires EdgeInv(env, readings, db) && InUse(env, readings, db, blob)
    ensures Referenced(db, blob)
  {
    hide ItemsAs, EdgeExplained, Describes;
    var link, kind, item :| link in db.live && (link.1, kind) in readings && Reads(env, db, link.1, kind, item)
                            && item.descriptor.digest == blob && item.relationship in {Config, Layer};
    assert ReadingStored(env, db, (link.1, kind));
    var items := ItemsAs(env, db, link.1, kind).value;
    var i :| 0 <= i < |items| && items[i] == item;
    assert KeyOf(link.1, items[i]) in db.edges && link.1 == KeyOf(link.1, item).parent;
  }
}
