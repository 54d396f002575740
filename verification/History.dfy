/** What runs of the registry guarantee about tags, their history, and the stored edges. */
module History {
  import opened Common
  import opened Digests
  import opened Storage
  import opened BlobTables
  import opened Manifests
  import opened Registry

  // ---------------------------------------------------------------- the tag history

  /** The tag table that a list of events leads to. */
  function Replay(events: seq<TagEvent>): map<(Repo, Tag), Digest> {
    if events == [] then map[]
    else
      var e := events[|events| - 1];
      var before := Replay(events[..|events| - 1]);
      if e.current.Some? then before[(e.repo, e.tag) := e.current.value] else before - {(e.repo, e.tag)}
  }

  /** The event at `i` says truly what its tag pointed to just before, and changes it. */
  ghost predicate TrueEvent(events: seq<TagEvent>, i: nat)
    requires i < |events|
  {
    && events[i].previous == Lookup(Replay(events[..i]), (events[i].repo, events[i].tag))
    && events[i].current != events[i].previous
  }

  ghost predicate TagInv(db: Database) {
    && Replay(db.events) == db.tags
    && (forall i :: 0 <= i < |db.events| ==> TrueEvent(db.events, i))
    && (forall k :: k in db.tags ==> (k.0, db.tags[k]) in db.live)
  }

  lemma ReplaySnoc(events: seq<TagEvent>, e: TagEvent)
    requires forall i :: 0 <= i < |events| ==> TrueEvent(events, i)
    requires e.previous == Lookup(Replay(events), (e.repo, e.tag)) && e.current != e.previous
    ensures var tags := Replay(events);
            Replay(events + [e]) == if e.current.Some? then tags[(e.repo, e.tag) := e.current.value]
                                    else tags - {(e.repo, e.tag)}
    ensures forall i :: 0 <= i < |events + [e]| ==> TrueEvent(events + [e], i)
  {
    var longer := events + [e];
    assert longer[..|events|] == events;
    forall i | 0 <= i < |longer|
      ensures TrueEvent(longer, i)
    {
      assert longer[..i] == if i < |events| then events[..i] else events;
      assert i < |events| ==> TrueEvent(events, i);
    }
  }

  lemma MoveTagKeeps(db: Database, repo: Repo, tag: Tag, digest: Digest)
    requires TagInv(db) && (repo, digest) in db.live
    ensures TagInv(MoveTag(db, repo, tag, digest))
  {
    var previous := Lookup(db.tags, (repo, tag));
    if previous != Some(digest) {
      ReplaySnoc(db.events, TagEvent(repo, tag, previous, Some(digest)));
    } else {
      assert db.tags[(repo, tag) := digest] == db.tags;
    }
  }

  /** Tags of the repository listed in `gone` are taken out of the table. */
  ghost function Without(tags: map<(Repo, Tag), Digest>, repo: Repo, gone: seq<Tag>): map<(Repo, Tag), Digest> {
    map k | k in tags && !(k.0 == repo && k.1 in gone) :: tags[k]
  }

  lemma WithoutOneMore(tags: map<(Repo, Tag), Digest>, repo: Repo, gone: seq<Tag>)
    requires gone != [] && gone[|gone| - 1] !in gone[..|gone| - 1]
    ensures var front := gone[..|gone| - 1];
            var last := gone[|gone| - 1];
      && Without(tags, repo, front) - {(repo, last)} == Without(tags, repo, gone)
      && Lookup(Without(tags, repo, front), (repo, last)) == Lookup(tags, (repo, last))
  {
    assert gone == gone[..|gone| - 1] + [gone[|gone| - 1]];
  }

  lemma {:induction false} RemovalsReplay(events: seq<TagEvent>, repo: Repo, digest: Digest, order: seq<Tag>)
    requires forall i :: 0 <= i < |events| ==> TrueEvent(events, i)
    requires forall i :: 0 <= i < |order| ==> Lookup(Replay(events), (repo, order[i])) == Some(digest)
    requires forall i, j :: 0 <= i < j < |order| ==> order[i] != order[j]
    ensures var all := events + Removals(repo, digest, order);
      && Replay(all) == Without(Replay(events), repo, order)
      && forall i :: 0 <= i < |all| ==> TrueEvent(all, i)
  {
    var all := events + Removals(repo, digest, order);
    if order == [] {
      assert all == events;
    } else {
      var n := |order| - 1;
      var front := events + Removals(repo, digest, order[..n]);
      RemovalsReplay(events, repo, digest, order[..n]);
      assert all == front + [TagEvent(repo, order[n], Some(digest), None)];
      assert order[n] !in order[..n];
      WithoutOneMore(Replay(events), repo, order);
      hide Removals, Without;
      ReplaySnoc(front, TagEvent(repo, order[n], Some(digest), None));
    }
  }

  lemma DeleteKeeps(s: State, repo: Repo, digest: Digest, order: seq<Tag>)
    requires TagInv(s.db)
    ensures TagInv(DeleteManifest(s, repo, digest, order).db)
  {
    var s' := DeleteManifest(s, repo, digest, order);
    if s'.db != s.db {
      var tags := TagsOf(s.db.tags, repo, digest);
      assert forall i :: 0 <= i < |order| ==> order[i] in tags;
      RemovalsReplay(s.db.events, repo, digest, order);
      assert forall k :: k in s.db.tags && k.0 == repo && s.db.tags[k] == digest ==> k.1 in tags;
      assert Without(s.db.tags, repo, order) == Untag(s.db.tags, repo, digest);
    }
  }

  lemma RequestKeepsTags(env: Env, s: State, r: Request)
    requires TagInv(s.db)
    ensures TagInv(Registry.Apply(env, s, r).db)
  {
    match r
    case PushManifest(repo, reference, supplied, raw) =>
      if PushRefusal(env, s, repo, reference, supplied, raw).None? {
        var doc := Manifests.Parse(env.codec, raw, supplied).value;
        var db := Persist(s.db, repo, doc);
        assert TagInv(db);
        MoveTagKeeps(db, repo, reference, doc.digest);
      }
    case RemoveManifest(repo, digest, order) =>
      DeleteKeeps(s, repo, digest, order);
    case _ =>
  }

  /**
   Replay. After any run, folding the events gives the tag table exactly; every event tells its
   tag's value just before it and changes it; and every tag points to a manifest live in its
   repository.
   */
  lemma {:induction false} HistoryReplays(env: Env, requests: seq<Request>)
    ensures TagInv(Registry.Run(env, requests).db)
  {
    if requests != [] {
      var before := requests[..|requests| - 1];
      HistoryReplays(env, before);
      RequestKeepsTags(env, Registry.Run(env, before), requests[|requests| - 1]);
    }
  }

  lemma RequestKeepsTagsValid(env: Env, s: State, r: Request)
    requires forall k :: k in s.db.tags ==> ValidTag(k.1)
    ensures forall k :: k in Registry.Apply(env, s, r).db.tags ==> ValidTag(k.1)
  {
    hide CompleteUntil, InsertEdges, Manifests.Parse, Digests.Parse, DependencyRefusal, ValidTag;
  }

  /** Whatever was pushed, every tag is well formed: no other name ever gets into the tag table. */
  lemma {:induction false} TagsAreWellFormed(env: Env, requests: seq<Request>)
    ensures forall k :: k in Registry.Run(env, requests).db.tags ==> WellFormedTag(k.1)
  {
    TagsAreValid(env, requests);
    forall k | k in Registry.Run(env, requests).db.tags
      ensures WellFormedTag(k.1)
    {
      ValidTagIff(k.1);
    }
  }

  lemma {:induction false} TagsAreValid(env: Env, requests: seq<Request>)
    ensures forall k :: k in Registry.Run(env, requests).db.tags ==> ValidTag(k.1)
  {
    if requests != [] {
      var before := requests[..|requests| - 1];
      TagsAreValid(env, before);
      hide Registry.Apply, ValidTag;
      RequestKeepsTagsValid(env, Registry.Run(env, before), requests[|requests| - 1]);
    }
  }

  // ---------------------------------------------------------------- immutable tags

  /** The repository's pattern covers the tag. */
  ghost predicate Protected(env: Env, db: Database, repo: Repo, tag: Tag) {
    repo in db.patterns && env.matches(db.patterns[repo], tag) == Some(true)
  }

  /** `requests` taken from state `s`. */
  ghost function RunFrom(env: Env, s: State, requests: seq<Request>): State {
    if requests == [] then s
    else Registry.Apply(env, RunFrom(env, s, requests[..|requests| - 1]), requests[|requests| - 1])
  }

  lemma ProtectedTagStays(env: Env, s: State, r: Request, repo: Repo, tag: Tag)
    requires (repo, tag) in s.db.tags && Protected(env, s.db, repo, tag)
    requires !(r.RemoveManifest? && r.repo == repo && r.digest == s.db.tags[(repo, tag)])
    ensures Lookup(Registry.Apply(env, s, r).db.tags, (repo, tag)) == Some(s.db.tags[(repo, tag)])
  {
    hide CompleteUntil, InsertEdges, Manifests.Parse, Digests.Parse, DependencyRefusal;
  }

  /**
   Immutability. While the pattern covers a bound tag, no run of requests moves or removes it,
   unless it deletes the manifest the tag points to in that repository.
   */
  lemma {:induction false} ProtectedTagsStay(env: Env, s: State, requests: seq<Request>, repo: Repo, tag: Tag)
    requires (repo, tag) in s.db.tags
    requires forall i :: 0 <= i <= |requests| ==> Protected(env, RunFrom(env, s, requests[..i]).db, repo, tag)
    requires forall i :: 0 <= i < |requests| ==>
               !(requests[i].RemoveManifest? && requests[i].repo == repo
                 && requests[i].digest == s.db.tags[(repo, tag)])
    ensures Lookup(RunFrom(env, s, requests).db.tags, (repo, tag)) == Some(s.db.tags[(repo, tag)])
  {
    if requests != [] {
      var n := |requests| - 1;
      var before := requests[..n];
      assert forall i :: 0 <= i <= n ==> before[..i] == requests[..i];
      ProtectedTagsStay(env, s, before, repo, tag);
      hide Registry.Apply;
      ProtectedTagStays(env, RunFrom(env, s, before), requests[n], repo, tag);
    }
  }

  /** A tag that is not covered, or not bound, moves with every push that is otherwise in order. */
  lemma UnprotectedTagsMove(env: Env, s: State, repo: Repo, tag: Tag, supplied: Option<string>, raw: Bytes)
    requires |raw| <= MANIFEST_LIMIT && Manifests.Parse(env.codec, raw, supplied).Ok?
    requires ValidTag(tag) && Digests.Parse(tag).Err?
    requires var doc := Manifests.Parse(env.codec, raw, supplied).value;
      && DependencyRefusal(s, repo, doc.items).None?
      && (repo in s.db.patterns ==> env.matches(s.db.patterns[repo], tag).Some?)
    ensures var doc := Manifests.Parse(env.codec, raw, supplied).value;
            var s' := PutManifest(env, s, repo, tag, supplied, raw);
      if Protected(env, s.db, repo, tag) && Lookup(s.db.tags, (repo, tag)) !in {None, Some(doc.digest)}
      then s' == s
      else Lookup(s'.db.tags, (repo, tag)) == Some(doc.digest)
  {
  }

  // ---------------------------------------------------------------- edges

  /** The edges of `parent` are exactly the descriptors, each under a key of its own. */
  ghost predicate EdgesAre(edges: map<EdgeKey, EdgeRow>, parent: Digest, items: seq<Item>) {
    && (forall i :: 0 <= i < |items| ==>
        KeyOf(parent, items[i]) in edges
        && Describes(KeyOf(parent, items[i]), edges[KeyOf(parent, items[i])], parent, items[i]))
    && (forall k :: k in edges && k.parent == parent ==> exists i :: 0 <= i < |items| && k == KeyOf(parent, items[i]))
    && (forall i, j :: 0 <= i < j < |items| ==> KeyOf(parent, items[i]) != KeyOf(parent, items[j]))
  }

  /** Inserting edges that are there changes nothing. */
  lemma {:induction false} PresentEdgesStay(edges: map<EdgeKey, EdgeRow>, parent: Digest, items: seq<Item>)
    requires forall i :: 0 <= i < |items| ==> KeyOf(parent, items[i]) in edges
    ensures InsertEdges(edges, parent, items) == edges
  {
    if items != [] {
      PresentEdgesStay(edges, parent, items[..|items| - 1]);
    }
  }
}
