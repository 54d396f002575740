/**
 The blob side of the database and the bucket's objects, with one function per transaction that
 touches them. Module Lifecycle interleaves these transactions; module Registry runs them inside
 whole requests.
 */
module BlobTables {
  import opened Common
  import opened Digests
  import opened Storage

  type Repo = string

  /** `blob_status`: Live is 'committed'. */
  datatype BlobStatus = Live | Tombstoned

  datatype BlobRow = BlobRow(key: Key, size: int, status: BlobStatus)

  datatype Tables = Tables(blobs: map<Digest, BlobRow>, objects: map<Key, Bytes>, links: set<(Repo, Digest)>)

  predicate IsLive(t: Tables, d: Digest) {
    d in t.blobs && t.blobs[d].status.Live?
  }

  /** The row of `d` names an object with the row's digest and size. */
  predicate Holds(hash: Bytes -> Digest, t: Tables, d: Digest) {
    && d in t.blobs
    && t.blobs[d].key in t.objects
    && hash(t.objects[t.blobs[d].key]) == d
    && |t.objects[t.blobs[d].key]| == t.blobs[d].size
  }

  function PutObject(t: Tables, key: Key, bytes: Bytes): Tables {
    t.(objects := t.objects[key := bytes])
  }

  function DeleteObject(t: Tables, key: Key): Tables {
    t.(objects := t.objects - {key})
  }

  /** The update of `repair_missing_blob_metadata`, once `held` has been found missing. */
  function TombstoneMissing(t: Tables, d: Digest, held: Key): Tables {
    if IsLive(t, d) && t.blobs[d].key == held
    then t.(blobs := t.blobs[d := t.blobs[d].(status := Tombstoned)])
    else t
  }

  /** `commit_blob` finds the digest committed already, under another key. */
  predicate Duplicate(t: Tables, key: Key, d: Digest) {
    IsLive(t, d) && t.blobs[d].key != key
  }

  /** The transaction of `commit_blob`: a row that is not committed takes the new key and size. */
  function CommitBlob(t: Tables, repo: Repo, key: Key, d: Digest, size: int): Tables {
    t.(blobs := if IsLive(t, d) then t.blobs else t.blobs[d := BlobRow(key, size, Live)],
       links := t.links + {(repo, d)})
  }

  /** The collector's claim. */
  function Tombstone(t: Tables, d: Digest): Tables {
    if IsLive(t, d) then t.(blobs := t.blobs[d := t.blobs[d].(status := Tombstoned)]) else t
  }

  /** The collector's repair after a delete that failed. */
  function Restore(t: Tables, d: Digest): Tables {
    if d in t.blobs && t.blobs[d].status.Tombstoned?
    then t.(blobs := t.blobs[d := t.blobs[d].(status := Live)])
    else t
  }

  /** The collector's last statement; it is keyed by digest alone. */
  function Unlink(t: Tables, d: Digest): Tables {
    t.(links := set link | link in t.links && link.1 != d)
  }

  /** `mount_blob`. */
  function Mount(t: Tables, source: Repo, target: Repo, d: Digest): Tables {
    if (source, d) in t.links && IsLive(t, d) then t.(links := t.links + {(target, d)}) else t
  }

  /** `repair_missing_blob_metadata` in one piece. */
  function Repair(t: Tables, d: Digest): Tables {
    if IsLive(t, d) && t.blobs[d].key !in t.objects then TombstoneMissing(t, d, t.blobs[d].key) else t
  }

  /** The call at which a completion fails, if it fails: everything before it has happened. */
  datatype Stop = AtAssembly | AtHashing | AtRepair | AtCommit | AtDelete | Never

  /**
   A completion nobody interrupts, from the assembled bytes on: store them under the session's
   key, compare digests, repair, commit, drop the duplicate. The flag says whether the client is
   told that it succeeded.
   */
  function CompleteUntil(hash: Bytes -> Digest, t: Tables, repo: Repo, key: Key, bytes: Bytes,
                         expected: Digest, stop: Stop): (Tables, bool)
  {
    if stop.AtAssembly? then (t, false)
    else
      var stored := PutObject(t, key, bytes);
      if stop.AtHashing? then (stored, false)
      else if hash(bytes) != expected then (if stop.AtDelete? then stored else DeleteObject(stored, key), false)
      else if stop.AtRepair? then (stored, false)
      else
        var repaired := Repair(stored, expected);
        if stop.AtCommit? then (repaired, false)
        else
          var committed := CommitBlob(repaired, repo, key, expected, |bytes|);
          if !Duplicate(repaired, key, expected) then (committed, true)
          else if stop.AtDelete? then (committed, false)
          else (DeleteObject(committed, key), true)
  }

  function Complete(hash: Bytes -> Digest, t: Tables, repo: Repo, key: Key, bytes: Bytes,
                    expected: Digest): (Tables, bool)
  {
    CompleteUntil(hash, t, repo, key, bytes, expected, Never)
  }

  /** A committed row may have lost its object, but an object that is there is the right one. */
  ghost predicate LostButNotWrong(hash: Bytes -> Digest, t: Tables) {
    forall d :: d in t.blobs && t.blobs[d].status.Live? && t.blobs[d].key in t.objects ==> Holds(hash, t, d)
  }

  /** The key of a session that has never been completed. */
  predicate FreshKey(t: Tables, key: Key) {
    key !in t.objects && forall d :: d in t.blobs ==> t.blobs[d].key != key
  }

  /**
   Healing. Whatever objects the committed rows have lost, a completion with the right bytes
   leaves the digest committed, linked and backed by its object, touches no other row and no
   other object, and leaves its own object behind exactly when the row now names it.
   */
  lemma CompletionHeals(hash: Bytes -> Digest, t: Tables, repo: Repo, key: Key, bytes: Bytes)
    requires LostButNotWrong(hash, t) && FreshKey(t, key)
    ensures var d := hash(bytes);
            var (t', ok) := Complete(hash, t, repo, key, bytes, d);
      && ok
      && IsLive(t', d) && Holds(hash, t', d) && t'.links == t.links + {(repo, d)}
      && (forall e :: e != d ==> (e in t'.blobs <==> e in t.blobs) && (e in t.blobs ==> t'.blobs[e] == t.blobs[e]))
      && t'.objects - {key} == t.objects
      && (key in t'.objects <==> t'.blobs[d].key == key)
      && (IsLive(t, d) && t.blobs[d].key in t.objects ==> t'.blobs == t.blobs && t'.objects == t.objects)
  {
    var d := hash(bytes);
    var stored := PutObject(t, key, bytes);
    assert stored.objects - {key} == t.objects;
    assert IsLive(t, d) && t.blobs[d].key in t.objects ==> Holds(hash, t, d);
  }

  /** With the wrong bytes, a completion leaves the tables as they were. */
  lemma WrongDigestChangesNothing(hash: Bytes -> Digest, t: Tables, repo: Repo, key: Key, bytes: Bytes,
                                  expected: Digest)
    requires FreshKey(t, key) && hash(bytes) != expected
    ensures Complete(hash, t, repo, key, bytes, expected) == (t, false)
  {
    assert (t.objects[key := bytes]) - {key} == t.objects;
  }

  /** Committed rows tell the truth, no two rows share an object, and links have a row. */
  ghost predicate Consistent(hash: Bytes -> Digest, t: Tables) {
    && (forall d :: d in t.blobs && t.blobs[d].status.Live? ==> Holds(hash, t, d))
    && (forall d, e :: d in t.blobs && e in t.blobs && d != e ==> t.blobs[d].key != t.blobs[e].key)
    && (forall link :: link in t.links ==> link.1 in t.blobs)
  }

  /** Nothing committed is lost, and committed rows stay as they are. */
  ghost predicate Keeps(t: Tables, t': Tables) {
    && t.links <= t'.links
    && (forall d :: d in t.blobs && t.blobs[d].status.Live? ==> d in t'.blobs && t'.blobs[d] == t.blobs[d])
  }

  /** From a consistent state the repair step changes nothing. */
  lemma RepairIsIdle(hash: Bytes -> Digest, t: Tables, d: Digest)
    requires Consistent(hash, t)
    ensures Repair(t, d) == t
  {
    assert IsLive(t, d) ==> Holds(hash, t, d);
  }

  /** No row names `key`. */
  ghost predicate Unnamed(t: Tables, key: Key) {
    forall d :: d in t.blobs ==> t.blobs[d].key != key
  }

  lemma UnnamedObjectsDoNotMatter(hash: Bytes -> Digest, t: Tables, key: Key, bytes: Bytes)
    requires Consistent(hash, t) && Unnamed(t, key)
    ensures Consistent(hash, PutObject(t, key, bytes)) && Consistent(hash, DeleteObject(t, key))
  {
  }

  lemma CommittingKeeps(hash: Bytes -> Digest, t: Tables, repo: Repo, key: Key, d: Digest)
    requires Consistent(hash, t) && Unnamed(t, key) && key in t.objects && hash(t.objects[key]) == d
    ensures var t' := CommitBlob(t, repo, key, d, |t.objects[key]|);
      && Consistent(hash, t') && Keeps(t, t')
      && (Duplicate(t, key, d) <==> IsLive(t, d)) && (IsLive(t, d) ==> Unnamed(t', key))
  {
  }

  /** Each table state a completion passes through is consistent, and has lost nothing. */
  lemma StagesKeep(hash: Bytes -> Digest, t: Tables, repo: Repo, key: Key, bytes: Bytes)
    requires Consistent(hash, t) && FreshKey(t, key)
    ensures var stored := PutObject(t, key, bytes);
            var committed := CommitBlob(stored, repo, key, hash(bytes), |bytes|);
      && Consistent(hash, stored) && Keeps(t, stored) && Keeps(t, t)
      && Consistent(hash, DeleteObject(stored, key)) && Keeps(t, DeleteObject(stored, key))
      && Consistent(hash, committed) && Keeps(t, committed)
      && IsLive(committed, hash(bytes)) && (repo, hash(bytes)) in committed.links
      && (Duplicate(stored, key, hash(bytes)) ==>
            Consistent(hash, DeleteObject(committed, key)) && Keeps(t, DeleteObject(committed, key)))
      && (forall d :: Repair(stored, d) == stored)
  {
    var stored := PutObject(t, key, bytes);
    assert Unnamed(t, key) && Unnamed(stored, key) && Keeps(t, stored);
    hide Unnamed, FreshKey, Duplicate;
    UnnamedObjectsDoNotMatter(hash, t, key, bytes);
    UnnamedObjectsDoNotMatter(hash, stored, key, bytes);
    forall d
      ensures Repair(stored, d) == stored
    {
      RepairIsIdle(hash, stored, d);
    }
    hide Consistent, Repair;
    CommittingKeeps(hash, stored, repo, key, hash(bytes));
    var committed := CommitBlob(stored, repo, key, hash(bytes), |bytes|);
    assert Keeps(t, committed);
    if Duplicate(stored, key, hash(bytes)) {
      UnnamedObjectsDoNotMatter(hash, committed, key, bytes);
    }
  }

  /** However far a completion under a fresh key gets, the tables stay consistent and lose nothing. */
  lemma CompletionKeeps(hash: Bytes -> Digest, t: Tables, repo: Repo, key: Key, bytes: Bytes, expected: Digest,
                        stop: Stop)
    requires Consistent(hash, t) && FreshKey(t, key)
    ensures var (t', ok) := CompleteUntil(hash, t, repo, key, bytes, expected, stop);
      && Consistent(hash, t') && Keeps(t, t')
      && (ok ==> IsLive(t', expected) && (repo, expected) in t'.links)
  {
    hide Consistent, Keeps, FreshKey, Duplicate, Repair, CommitBlob;
    StagesKeep(hash, t, repo, key, bytes);
  }

  /** The only row a completion can add or change to committed has the digest and size of its bytes. */
  lemma CompletionRows(hash: Bytes -> Digest, t: Tables, repo: Repo, key: Key, bytes: Bytes, expected: Digest,
                       stop: Stop)
    ensures var t' := CompleteUntil(hash, t, repo, key, bytes, expected, stop).0;
      forall d :: d in t'.blobs && t'.blobs[d].status.Live? ==>
        (d in t.blobs && t.blobs[d] == t'.blobs[d]) || (d == hash(bytes) && t'.blobs[d].size == |bytes|)
  {
  }

  /** A completion under a key no row names commits exactly what has the digest asked for. */
  lemma CompleteCommits(hash: Bytes -> Digest, t: Tables, repo: Repo, key: Key, bytes: Bytes, expected: Digest)
    requires Consistent(hash, t) && Unnamed(t, key)
    ensures var t' := Complete(hash, t, repo, key, bytes, expected).0;
      if hash(bytes) == expected
      then IsLive(t', expected) && Holds(hash, t', expected) && t'.links == t.links + {(repo, expected)}
      else t' == DeleteObject(t, key)
  {
    var stored := PutObject(t, key, bytes);
    UnnamedObjectsDoNotMatter(hash, t, key, bytes);
    RepairIsIdle(hash, stored, expected);
    assert DeleteObject(stored, key).objects == t.objects - {key};
    if hash(bytes) == expected {
      hide Repair, Unnamed;
      CommittingKeeps(hash, stored, repo, key, expected);
      UnnamedObjectsDoNotMatter(hash, stored, key, bytes);
    }
  }

  // ---------------------------------------------------------------- collection

  /**
   What collecting `digests` leaves: their rows are no longer committed, their objects and links
   are gone; every other row, object and link is as it was.
   */
  ghost predicate Freed(t: Tables, t': Tables, digests: set<Digest>) {
    && (forall d :: d in t'.blobs <==> d in t.blobs)
    && (forall d :: d in t.blobs ==>
          t'.blobs[d] == if d in digests then t.blobs[d].(status := Tombstoned) else t.blobs[d])
    && (forall key :: key in t'.objects <==>
          key in t.objects && forall d :: d in t.blobs && d in digests ==> t.blobs[d].key != key)
    && (forall key :: key in t'.objects ==> t'.objects[key] == t.objects[key])
    && (forall link :: link in t'.links <==> link in t.links && link.1 !in digests)
  }

  lemma NothingFreed(t: Tables)
    ensures Freed(t, t, {})
  {
  }

  lemma CollectingFrees(t: Tables, d: Digest)
    requires IsLive(t, d)
    ensures Freed(t, Unlink(DeleteObject(Tombstone(t, d), t.blobs[d].key), d), {d})
  {
  }

  lemma FreedOneMore(t: Tables, t1: Tables, t2: Tables, digests: set<Digest>, d: Digest)
    requires Freed(t, t1, digests) && Freed(t1, t2, {d}) && IsLive(t1, d)
    ensures Freed(t, t2, digests + {d})
  {
    assert d !in digests;
    assert forall key :: key in t2.objects ==> key in t1.objects;
  }

  /** Committed blobs that are not collected stay committed, and keep their objects. */
  lemma FreedSparesOthers(hash: Bytes -> Digest, t: Tables, t': Tables, digests: set<Digest>, e: Digest)
    requires Consistent(hash, t) && Freed(t, t', digests) && IsLive(t, e) && e !in digests
    ensures IsLive(t', e) && Holds(hash, t', e) && t'.blobs[e] == t.blobs[e]
  {
    assert Holds(hash, t, e);
  }
}
