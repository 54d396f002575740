/**
 Upload sessions, completions and the garbage collector, interleaved one transaction or one
 bucket call at a time. Any number of completions run at once; there is one collector.
 */
module Lifecycle {
  import opened Common
  import opened Digests
  import opened Storage
  import opened Uploads
  import opened BlobTables

  /** Where a `complete_upload` stands once its session is closed. */
  datatype Pc =
    | Assembling
    | Hashing
    | Mismatched
    | MarkingFailed
    | Repairing(size: int)
    | Probing(size: int, held: Key)
    | Tombstoning(size: int, held: Key)
    | Committing(size: int)
    | Deduplicating
    | Finished

  datatype Completion = Completion(key: Key, repo: Repo, digest: Digest, pc: Pc)

  datatype Garbage = Garbage(digest: Digest, key: Key)

  datatype GcPc = Claiming | Deleting(g: Garbage) | Restoring(digest: Digest) | Unlinking(digest: Digest)

  datatype System = System(
    t: Tables,
    uploads: map<Key, Upload>,
    completions: seq<Completion>,
    batch: seq<Garbage>,
    gc: GcPc)

  const INITIAL: System := System(Tables(map[], map[], {}), map[], [], [], Claiming)

  /** How one transaction or bucket call of a completion ends. */
  datatype Outcome = Succeeds | FailsBefore | FailsAfter

  datatype Step =
    | StartUpload(key: Key)
    | PatchArrives(key: Key, expired: bool, limit: nat, range: ContentRange, body: Bytes)
    | PutArrives(key: Key, expired: bool, limit: nat, range: ContentRange, body: Bytes, repo: Repo, digest: Digest)
    | CancelUpload(key: Key)
    | ExpireUpload(key: Key)
    | Advance(i: nat, outcome: Outcome)
    | MountBlob(source: Repo, target: Repo, digest: Digest)
    | GcList(batch: seq<Garbage>)
    | GcStep(eligible: bool, deleteFails: bool)
    | GcAbandon

  /** One step of the completion `c`: the new system, and where `c` stands if it goes on. */
  function Act(hash: Bytes -> Digest, s: System, c: Completion): (System, Pc)
    requires c.key in s.uploads
  {
    match c.pc
    case Assembling =>
      (s.(t := PutObject(s.t, c.key, Flat(s.uploads[c.key].chunks))), Hashing)
    case Hashing =>
      if c.key !in s.t.objects then (s, Finished)
      else if hash(s.t.objects[c.key]) != c.digest then (s, Mismatched)
      else (s, Repairing(|s.t.objects[c.key]|))
    case Mismatched =>
      (s.(t := DeleteObject(s.t, c.key)), MarkingFailed)
    case MarkingFailed =>
      (s.(uploads := s.uploads[c.key := s.uploads[c.key].(status := Failed)]), Finished)
    case Repairing(size) =>
      (s, if IsLive(s.t, c.digest) then Probing(size, s.t.blobs[c.digest].key) else Committing(size))
    case Probing(size, held) =>
      (s, if held in s.t.objects then Committing(size) else Tombstoning(size, held))
    case Tombstoning(size, held) =>
      (s.(t := TombstoneMissing(s.t, c.digest, held)), Committing(size))
    case Committing(size) =>
      (s.(t := CommitBlob(s.t, c.repo, c.key, c.digest, size),
          uploads := s.uploads[c.key := s.uploads[c.key].(status := Committed)]),
       if Duplicate(s.t, c.key, c.digest) then Deduplicating else Finished)
    case Deduplicating =>
      (s.(t := DeleteObject(s.t, c.key)), Finished)
    case Finished =>
      (s, Finished)
  }

  function GcAct(s: System, eligible: bool, deleteFails: bool): System {
    match s.gc
    case Claiming =>
      if s.batch == [] then s
      else
        var g := s.batch[0];
        if eligible && IsLive(s.t, g.digest)
        then s.(t := Tombstone(s.t, g.digest), batch := s.batch[1..], gc := Deleting(g))
        else s.(batch := s.batch[1..])
    case Deleting(g) =>
      if deleteFails then s.(gc := Restoring(g.digest))
      else s.(t := DeleteObject(s.t, g.key), gc := Unlinking(g.digest))
    case Restoring(d) =>
      s.(t := Restore(s.t, d), batch := [], gc := Claiming)
    case Unlinking(d) =>
      s.(t := Unlink(s.t, d), gc := Claiming)
  }

  function SetPc(s: System, i: nat, pc: Pc): System
    requires i < |s.completions|
  {
    s.(completions := s.completions[i := s.completions[i].(pc := pc)])
  }

  function Apply(hash: Bytes -> Digest, s: System, step: Step): System {
    match step
    case StartUpload(key) =>
      if key in s.uploads then s else s.(uploads := s.uploads[key := Upload([], Uploading)])
    case PatchArrives(key, expired, limit, range, body) =>
      if key !in s.uploads then s
      else s.(uploads := s.uploads[key := Patch(s.uploads[key], expired, limit, range, body)])
    case PutArrives(key, expired, limit, range, body, repo, digest) =>
      if key !in s.uploads || PutRefusal(s.uploads[key], expired, limit, range, body).Some? then s
      else s.(uploads := s.uploads[key := Put(s.uploads[key], expired, limit, range, body)],
              completions := s.completions + [Completion(key, repo, digest, Assembling)])
    case CancelUpload(key) =>
      if key !in s.uploads || s.uploads[key].status != Uploading then s
      else s.(uploads := s.uploads[key := s.uploads[key].(status := Cancelled)])
    case ExpireUpload(key) =>
      if key !in s.uploads || !(s.uploads[key].status in {Uploading, Finalizing}) then s
      else s.(uploads := s.uploads[key := s.uploads[key].(status := Failed)])
    case Advance(i, outcome) =>
      if i >= |s.completions| || s.completions[i].key !in s.uploads then s
      else
        var acted := Act(hash, s, s.completions[i]);
        (match outcome
         case Succeeds => SetPc(acted.0, i, acted.1)
         case FailsBefore => SetPc(s, i, Finished)
         case FailsAfter => SetPc(acted.0, i, Finished))
    case MountBlob(source, target, digest) =>
      s.(t := Mount(s.t, source, target, digest))
    case GcList(batch) =>
      if s.batch == [] && s.gc.Claiming?
         && forall g :: g in batch ==> IsLive(s.t, g.digest) && s.t.blobs[g.digest].key == g.key
      then s.(batch := batch)
      else s
    case GcStep(eligible, deleteFails) =>
      GcAct(s, eligible, deleteFails)
    case GcAbandon =>
      s.(batch := [], gc := Claiming)
  }

  function Run(hash: Bytes -> Digest, steps: seq<Step>): System {
    if steps == [] then INITIAL
    else Apply(hash, Run(hash, steps[..|steps| - 1]), steps[|steps| - 1])
  }

  // ---------------------------------------------------------------- what every step keeps

  /** No completion will store, commit or delete the object `key` any more. */
  ghost predicate Settled(s: System, key: Key) {
    && key in s.uploads && s.uploads[key].status != Uploading
    && forall i :: 0 <= i < |s.completions| && s.completions[i].key == key ==> s.completions[i].pc.Finished?
  }

  /** At most one completion a session, and only of a session that was closed by a PUT. */
  ghost predicate SessionsInv(s: System) {
    && (forall i :: 0 <= i < |s.completions| ==>
          s.completions[i].key in s.uploads && s.uploads[s.completions[i].key].status !in {Uploading, Cancelled})
    && (forall i, j :: 0 <= i < j < |s.completions| ==> s.completions[i].key != s.completions[j].key)
    && (forall i :: 0 <= i < |s.completions| && s.uploads[s.completions[i].key].status == Committed ==>
          s.completions[i].pc in {Deduplicating, Finished})
  }

  /** Every row names a settled key, no two rows the same one, and committed rows tell the truth. */
  ghost predicate RowsInv(hash: Bytes -> Digest, s: System) {
    && (forall d :: d in s.t.blobs ==> Settled(s, s.t.blobs[d].key))
    && (forall d, e :: d in s.t.blobs && e in s.t.blobs && d != e ==> s.t.blobs[d].key != s.t.blobs[e].key)
    && (forall d :: d in s.t.blobs && s.t.blobs[d].status.Live? ==> Holds(hash, s.t, d))
    && (forall link :: link in s.t.links ==> link.1 in s.t.blobs)
  }

  /** What a completion has found out stays true while others run. */
  ghost predicate FoundInv(hash: Bytes -> Digest, s: System, c: Completion) {
    && (c.pc.Repairing? || c.pc.Probing? || c.pc.Tombstoning? || c.pc.Committing? ==>
          c.key in s.t.objects && hash(s.t.objects[c.key]) == c.digest && |s.t.objects[c.key]| == c.pc.size)
    && (c.pc.Probing? || c.pc.Tombstoning? ==> Settled(s, c.pc.held))
    && (c.pc.Tombstoning? ==> c.pc.held !in s.t.objects)
  }

  /** A key on the collector's list belongs to no other digest, and to no running completion. */
  ghost predicate Listed(s: System, g: Garbage) {
    && g.digest in s.t.blobs && Settled(s, g.key)
    && forall d :: d in s.t.blobs && d != g.digest ==> s.t.blobs[d].key != g.key
  }

  ghost predicate GcInv(hash: Bytes -> Digest, s: System) {
    && (forall g :: g in s.batch ==> Listed(s, g))
    && match s.gc
       case Claiming => true
       case Deleting(g) =>
         && Listed(s, g)
         && !(IsLive(s.t, g.digest) && s.t.blobs[g.digest].key == g.key)
         && (s.t.blobs[g.digest].status.Tombstoned? ==> Holds(hash, s.t, g.digest))
       case Restoring(d) =>
         d in s.t.blobs && (s.t.blobs[d].status.Tombstoned? ==> Holds(hash, s.t, d))
       case Unlinking(d) => true
  }

  ghost predicate Inv(hash: Bytes -> Digest, s: System) {
    && SessionsInv(s)
    && RowsInv(hash, s)
    && (forall i :: 0 <= i < |s.completions| ==> FoundInv(hash, s, s.completions[i]))
    && GcInv(hash, s)
  }

  /** The direction in which sessions and completions move in every step. */
  ghost predicate Onward(s: System, s': System) {
    && (forall k :: k in s.uploads ==> k in s'.uploads)
    && (forall k :: k in s.uploads && s.uploads[k].status != Uploading ==> s'.uploads[k].status != Uploading)
    && |s.completions| <= |s'.completions|
    && (forall i :: 0 <= i < |s.completions| ==> s'.completions[i].key == s.completions[i].key)
    && (forall i :: 0 <= i < |s.completions| && s.completions[i].pc.Finished? ==> s'.completions[i].pc.Finished?)
    && (forall i :: |s.completions| <= i < |s'.completions| ==>
          s'.completions[i].key in s.uploads && s.uploads[s'.completions[i].key].status == Uploading)
  }

  lemma SettledOnward(s: System, s': System)
    requires Onward(s, s')
    ensures forall k :: Settled(s, k) ==> Settled(s', k)
  {
  }

  /** Settled keys stay settled, and their objects stay what they are. */
  ghost predicate SettledSame(s: System, s': System) {
    && (forall k :: Settled(s, k) ==> Settled(s', k))
    && (forall k :: Settled(s, k) ==> (k in s'.t.objects <==> k in s.t.objects))
    && (forall k :: Settled(s, k) && k in s.t.objects ==> s'.t.objects[k] == s.t.objects[k])
  }

  lemma RowsSame(hash: Bytes -> Digest, s: System, s': System)
    requires RowsInv(hash, s) && SettledSame(s, s')
    requires s'.t.blobs == s.t.blobs && s'.t.links == s.t.links
    ensures RowsInv(hash, s')
  {
    hide Settled;
  }

  lemma GcSame(hash: Bytes -> Digest, s: System, s': System)
    requires RowsInv(hash, s) && GcInv(hash, s) && SettledSame(s, s')
    requires s'.t.blobs == s.t.blobs && s'.batch == s.batch && s'.gc == s.gc
    ensures GcInv(hash, s')
  {
    hide Settled;
    assert forall d :: d in s.t.blobs ==> Settled(s, s.t.blobs[d].key);
  }

  lemma FoundSame(hash: Bytes -> Digest, s: System, s': System, c: Completion)
    requires FoundInv(hash, s, c) && SettledSame(s, s')
    requires c.key in s'.t.objects <==> c.key in s.t.objects
    requires c.key in s.t.objects ==> s'.t.objects[c.key] == s.t.objects[c.key]
    ensures FoundInv(hash, s', c)
  {
    hide Settled;
  }

  /** Steps that leave the tables and the collector alone. */
  lemma SessionStepKeepsInv(hash: Bytes -> Digest, s: System, s': System)
    requires Inv(hash, s) && Onward(s, s') && SessionsInv(s')
    requires s'.t == s.t && s'.batch == s.batch && s'.gc == s.gc
    requires forall i :: 0 <= i < |s.completions| ==> s'.completions[i] == s.completions[i]
    requires forall i :: |s.completions| <= i < |s'.completions| ==> s'.completions[i].pc.Assembling?
    ensures Inv(hash, s')
  {
    SettledOnward(s, s');
    RowsSame(hash, s, s');
    GcSame(hash, s, s');
    forall i | 0 <= i < |s.completions|
      ensures FoundInv(hash, s', s'.completions[i])
    {
      FoundSame(hash, s, s', s.completions[i]);
    }
    hide Settled, Onward, SessionsInv, RowsInv, GcInv;
  }

  /** A running completion may do what it likes to its own object and its own session's status. */
  lemma OwnObjectKeepsInv(hash: Bytes -> Digest, s: System, s': System, i: nat)
    requires Inv(hash, s) && Onward(s, s') && SessionsInv(s')
    requires i < |s.completions| == |s'.completions| && !s.completions[i].pc.Finished?
    requires s'.t.blobs == s.t.blobs && s'.t.links == s.t.links && s'.batch == s.batch && s'.gc == s.gc
    requires s'.t.objects - {s.completions[i].key} == s.t.objects - {s.completions[i].key}
    requires forall j :: 0 <= j < |s.completions| && j != i ==> s'.completions[j] == s.completions[j]
    requires FoundInv(hash, s', s'.completions[i])
    ensures Inv(hash, s')
  {
    var own := s.completions[i].key;
    SettledOnward(s, s');
    assert !Settled(s, own);
    OthersSame(s.t.objects, s'.t.objects, own);
    assert SettledSame(s, s');
    RowsSame(hash, s, s');
    GcSame(hash, s, s');
    forall j | 0 <= j < |s.completions| && j != i
      ensures FoundInv(hash, s', s'.completions[j])
    {
      assert s.completions[j].key != own;
      FoundSame(hash, s, s', s.completions[j]);
    }
    hide Settled, Onward, SessionsInv, RowsInv, GcInv;
  }

  lemma OthersSame(objects: map<Key, Bytes>, objects': map<Key, Bytes>, own: Key)
    requires objects' - {own} == objects - {own}
    ensures forall k :: k != own ==> (k in objects' <==> k in objects)
    ensures forall k :: k != own && k in objects ==> objects'[k] == objects[k]
  {
    forall k | k != own
      ensures k in objects' <==> k in objects
      ensures k in objects ==> objects'[k] == objects[k]
    {
      assert k in objects' - {own} <==> k in objects - {own};
      assert k in objects ==> (objects' - {own})[k] == (objects - {own})[k];
    }
  }

  /** A new row brings a key no row and no collector has seen, and the truth about its object. */
  lemma CommitRows(hash: Bytes -> Digest, s: System, s': System, c: Completion, size: int)
    requires RowsInv(hash, s) && SettledSame(s, s') && !Settled(s, c.key)
    requires s'.t == CommitBlob(s.t, c.repo, c.key, c.digest, size)
    requires !IsLive(s.t, c.digest) ==> Settled(s', c.key)
    requires c.key in s.t.objects && hash(s.t.objects[c.key]) == c.digest && |s.t.objects[c.key]| == size
    ensures RowsInv(hash, s')
  {
    hide Settled;
  }

  lemma CommitGc(hash: Bytes -> Digest, s: System, s': System, c: Completion, size: int)
    requires RowsInv(hash, s) && GcInv(hash, s) && SettledSame(s, s') && !Settled(s, c.key)
    requires s'.t == CommitBlob(s.t, c.repo, c.key, c.digest, size)
    requires s'.batch == s.batch && s'.gc == s.gc
    ensures GcInv(hash, s')
  {
    hide Settled;
    forall g | Listed(s, g)
      ensures Listed(s', g)
    {
      assert g.key != c.key;
    }
    assert forall d :: d in s.t.blobs ==> Settled(s, s.t.blobs[d].key);
  }

  lemma RunningIsUnsettled(s: System, i: nat)
    requires i < |s.completions| && !s.completions[i].pc.Finished?
    ensures !Settled(s, s.completions[i].key)
  {
  }

  lemma FinishedSettles(s: System, i: nat)
    requires SessionsInv(s) && i < |s.completions| && s.completions[i].pc.Finished?
    ensures Settled(s, s.completions[i].key)
  {
  }

  lemma CommitKeepsInv(hash: Bytes -> Digest, s: System, s': System, i: nat)
    requires Inv(hash, s) && Onward(s, s') && SessionsInv(s')
    requires i < |s.completions| == |s'.completions| && s.completions[i].pc.Committing?
    requires var c := s.completions[i];
      && s'.t == CommitBlob(s.t, c.repo, c.key, c.digest, c.pc.size)
      && s'.uploads[c.key].status == Committed
      && s'.completions[i].pc in {Deduplicating, Finished}
      && (!Duplicate(s.t, c.key, c.digest) ==> s'.completions[i].pc.Finished?)
    requires s'.batch == s.batch && s'.gc == s.gc
    requires forall j :: 0 <= j < |s.completions| && j != i ==> s'.completions[j] == s.completions[j]
    ensures Inv(hash, s')
  {
    hide Settled, SessionsInv, RowsInv, GcInv;
    var c := s.completions[i];
    RunningIsUnsettled(s, i);
    SettledOnward(s, s');
    assert s'.completions[i].key == c.key;
    hide Onward;
    if s'.completions[i].pc.Finished? {
      FinishedSettles(s', i);
    }
    assert SettledSame(s, s');
    assert FoundInv(hash, s, c);
    CommitRows(hash, s, s', c, c.pc.size);
    CommitGc(hash, s, s', c, c.pc.size);
    forall j | 0 <= j < |s.completions|
      ensures FoundInv(hash, s', s'.completions[j])
    {
      if j != i {
        FoundSame(hash, s, s', s.completions[j]);
      }
    }
  }

  /** The collector, too, deletes only what no committed row and no running completion holds. */
  lemma GcStepKeepsInv(hash: Bytes -> Digest, s: System, eligible: bool, deleteFails: bool)
    requires Inv(hash, s)
    ensures Inv(hash, GcAct(s, eligible, deleteFails))
  {
    var s' := GcAct(s, eligible, deleteFails);
    assert SessionsInv(s');
    assert forall k :: Settled(s, k) <==> Settled(s', k);
    hide SessionsInv, Settled;
    if s.gc.Deleting? && !deleteFails {
      GcDeleteKeepsInv(hash, s, s');
    } else {
      GcRowsKeepInv(hash, s, s', eligible, deleteFails);
    }
  }

  lemma GcDeleteKeepsInv(hash: Bytes -> Digest, s: System, s': System)
    requires Inv(hash, s) && s.gc.Deleting? && s' == GcAct(s, true, false)
    requires SessionsInv(s') && forall k :: Settled(s, k) <==> Settled(s', k)
    ensures Inv(hash, s')
  {
    var g := s.gc.g;
    assert !exists i :: 0 <= i < |s.completions| && s.completions[i].key == g.key && !s.completions[i].pc.Finished?;
    hide SessionsInv, Settled;
    forall i | 0 <= i < |s.completions|
      ensures FoundInv(hash, s', s'.completions[i])
    {
      assert FoundInv(hash, s, s.completions[i]);
    }
  }

  lemma GcRowsKeepInv(hash: Bytes -> Digest, s: System, s': System, eligible: bool, deleteFails: bool)
    requires Inv(hash, s) && s' == GcAct(s, eligible, deleteFails) && s'.t.objects == s.t.objects
    requires SessionsInv(s') && forall k :: Settled(s, k) <==> Settled(s', k)
    ensures Inv(hash, s')
  {
    hide SessionsInv, Settled;
    forall i | 0 <= i < |s.completions|
      ensures FoundInv(hash, s', s'.completions[i])
    {
      assert FoundInv(hash, s, s.completions[i]);
    }
    GcRows(hash, s, s', eligible, deleteFails);
    GcLists(hash, s, s', eligible, deleteFails);
  }

  lemma StatusKeepsRows(hash: Bytes -> Digest, s: System, s': System, d: Digest, status: BlobStatus)
    requires RowsInv(hash, s) && d in s.t.blobs && (status.Live? ==> Holds(hash, s.t, d))
    requires s'.t == s.t.(blobs := s.t.blobs[d := s.t.blobs[d].(status := status)])
    requires forall k :: Settled(s, k) <==> Settled(s', k)
    ensures RowsInv(hash, s')
  {
    hide Settled;
  }

  /** Claiming takes a row out of the committed ones; restoring puts back one that still holds. */
  lemma GcRows(hash: Bytes -> Digest, s: System, s': System, eligible: bool, deleteFails: bool)
    requires RowsInv(hash, s) && GcInv(hash, s)
    requires s' == GcAct(s, eligible, deleteFails) && s'.t.objects == s.t.objects
    requires forall k :: Settled(s, k) <==> Settled(s', k)
    ensures RowsInv(hash, s')
  {
    hide Settled;
    if s'.t.blobs != s.t.blobs {
      var d := if s.gc.Claiming? then s.batch[0].digest else s.gc.digest;
      StatusKeepsRows(hash, s, s', d, if s.gc.Claiming? then Tombstoned else Live);
      hide RowsInv;
    } else {
      assert forall link :: link in s'.t.links ==> link in s.t.links;
    }
  }

  lemma GcLists(hash: Bytes -> Digest, s: System, s': System, eligible: bool, deleteFails: bool)
    requires RowsInv(hash, s) && GcInv(hash, s)
    requires s' == GcAct(s, eligible, deleteFails) && s'.t.objects == s.t.objects
    requires forall k :: Settled(s, k) <==> Settled(s', k)
    ensures GcInv(hash, s')
  {
    hide Settled;
    ListedStays(hash, s, s', eligible, deleteFails);
    GcPcStays(hash, s, s', eligible, deleteFails);
  }

  lemma ListedStays(hash: Bytes -> Digest, s: System, s': System, eligible: bool, deleteFails: bool)
    requires GcInv(hash, s)
    requires s' == GcAct(s, eligible, deleteFails)
    requires forall k :: Settled(s, k) <==> Settled(s', k)
    ensures forall g :: Listed(s, g) ==> Listed(s', g)
    ensures forall g :: g in s'.batch ==> Listed(s', g)
  {
    hide Settled, Holds;
    forall g | g in s'.batch
      ensures Listed(s', g)
    {
      assert g in s.batch && Listed(s, g);
    }
  }

  lemma GcPcStays(hash: Bytes -> Digest, s: System, s': System, eligible: bool, deleteFails: bool)
    requires RowsInv(hash, s) && GcInv(hash, s)
    requires s' == GcAct(s, eligible, deleteFails) && s'.t.objects == s.t.objects
    requires forall g :: Listed(s, g) ==> Listed(s', g)
    requires forall g :: g in s'.batch ==> Listed(s', g)
    ensures GcInv(hash, s')
  {
    hide Settled;
    if s.gc.Claiming? && s.batch != [] {
      assert s.batch[0] in s.batch;
    }
  }

  /** One completion moves, and with it at most the status of its own closed session. */
  lemma OneMoves(s: System, s': System, i: nat, pc: Pc)
    requires SessionsInv(s) && i < |s.completions|
    requires s'.completions == s.completions[i := s.completions[i].(pc := pc)]
    requires s'.uploads.Keys == s.uploads.Keys
    requires var key := s.completions[i].key;
      && (forall k :: k in s.uploads && k != key ==> s'.uploads[k] == s.uploads[k])
      && (key in s'.uploads ==> s'.uploads[key].status !in {Uploading, Cancelled})
      && (key in s'.uploads && s'.uploads[key].status == Committed ==> pc in {Deduplicating, Finished})
    requires s.completions[i].pc.Finished? ==> pc.Finished?
    ensures Onward(s, s') && SessionsInv(s')
  {
  }

  lemma AdvanceOnward(hash: Bytes -> Digest, s: System, i: nat, outcome: Outcome)
    requires SessionsInv(s)
    ensures var s' := Apply(hash, s, Advance(i, outcome)); Onward(s, s') && SessionsInv(s')
  {
    if i < |s.completions| {
      var c := s.completions[i];
      var status := s.uploads[c.key].status;
      assert status !in {Uploading, Cancelled} && (status == Committed ==> c.pc in {Deduplicating, Finished});
      hide SessionsInv, Onward;
      var s' := Apply(hash, s, Advance(i, outcome));
      OneMoves(s, s', i, s'.completions[i].pc);
    } else {
      assert Apply(hash, s, Advance(i, outcome)) == s;
    }
  }

  /** One session moves, and perhaps its completion begins. */
  lemma SessionOnward(s: System, s': System, key: Key)
    requires SessionsInv(s) && key in s'.uploads && s'.uploads - {key} == s.uploads - {key}
    requires key in s.uploads && s.uploads[key].status != Uploading ==> s'.uploads[key].status == Failed
    requires s'.completions == s.completions
             || (key in s.uploads && s.uploads[key].status == Uploading && s'.uploads[key].status == Finalizing
                 && exists c: Completion :: c.key == key && c.pc.Assembling? && s'.completions == s.completions + [c])
    ensures Onward(s, s') && SessionsInv(s')
  {
    forall k | k != key
      ensures k in s'.uploads <==> k in s.uploads
      ensures k in s.uploads ==> s'.uploads[k] == s.uploads[k]
    {
      assert k in s'.uploads - {key} <==> k in s.uploads - {key};
      assert k in s.uploads ==> (s'.uploads - {key})[k] == (s.uploads - {key})[k];
    }
  }

  lemma StepOnward(hash: Bytes -> Digest, s: System, step: Step)
    requires SessionsInv(s)
    ensures Onward(s, Apply(hash, s, step)) && SessionsInv(Apply(hash, s, step))
  {
    var s' := Apply(hash, s, step);
    if s'.uploads == s.uploads && s'.completions == s.completions {
    } else if step.Advance? {
      AdvanceOnward(hash, s, step.i, step.outcome);
    } else {
      assert step.PutArrives? ==>
        s'.completions == s.completions + [Completion(step.key, step.repo, step.digest, Assembling)];
      hide SessionsInv, Onward;
      SessionOnward(s, s', step.key);
    }
  }

  /** The repair step changes nothing while the tables tell the truth. */
  lemma RepairIsIdle(hash: Bytes -> Digest, s: System, c: Completion)
    requires RowsInv(hash, s) && c.pc.Tombstoning? && FoundInv(hash, s, c)
    ensures TombstoneMissing(s.t, c.digest, c.pc.held) == s.t
  {
    assert IsLive(s.t, c.digest) ==> Holds(hash, s.t, c.digest);
  }

  /** Short of committing, a completion touches no row and no object but its own. */
  lemma ActTouchesItsOwn(hash: Bytes -> Digest, s: System, c: Completion)
    requires RowsInv(hash, s) && FoundInv(hash, s, c) && !c.pc.Committing? && c.key in s.uploads
    ensures var t := Act(hash, s, c).0.t;
      t.blobs == s.t.blobs && t.links == s.t.links && t.objects - {c.key} == s.t.objects - {c.key}
  {
    hide RowsInv, FoundInv, IsLive, Duplicate, CommitBlob, TombstoneMissing;
    if c.pc.Tombstoning? {
      RepairIsIdle(hash, s, c);
    }
  }

  /** What a completion learns in one step is true when it learns it. */
  lemma ActFinds(hash: Bytes -> Digest, s: System, s': System, c: Completion, pc: Pc)
    requires RowsInv(hash, s) && FoundInv(hash, s, c) && !c.pc.Committing? && c.key in s.uploads
    requires s'.t == Act(hash, s, c).0.t && pc == Act(hash, s, c).1
    requires forall k :: Settled(s, k) ==> Settled(s', k)
    ensures FoundInv(hash, s', c.(pc := pc))
  {
    hide Settled;
    if c.pc.Tombstoning? {
      RepairIsIdle(hash, s, c);
    }
    if c.pc.Repairing? && IsLive(s.t, c.digest) {
      assert Settled(s, s.t.blobs[c.digest].key);
    }
    hide RowsInv;
  }

  lemma AdvanceKeepsInv(hash: Bytes -> Digest, s: System, i: nat, outcome: Outcome)
    requires Inv(hash, s) && i < |s.completions|
    ensures Inv(hash, Apply(hash, s, Advance(i, outcome)))
  {
    var s' := Apply(hash, s, Advance(i, outcome));
    var c := s.completions[i];
    AdvanceOnward(hash, s, i, outcome);
    assert s'.batch == s.batch && s'.gc == s.gc;
    if c.pc.Finished? {
      assert s' == s;
    } else if c.pc.Committing? && !outcome.FailsBefore? {
      hide Inv, Onward, SessionsInv;
      CommitKeepsInv(hash, s, s', i);
    } else {
      OwnStepKeepsInv(hash, s, i, outcome);
    }
  }

  lemma OwnStepKeepsInv(hash: Bytes -> Digest, s: System, i: nat, outcome: Outcome)
    requires Inv(hash, s) && i < |s.completions| && !s.completions[i].pc.Finished?
    requires !s.completions[i].pc.Committing? || outcome.FailsBefore?
    ensures Inv(hash, Apply(hash, s, Advance(i, outcome)))
  {
    var s' := Apply(hash, s, Advance(i, outcome));
    var c := s.completions[i];
    AdvanceOnward(hash, s, i, outcome);
    SettledOnward(s, s');
    assert FoundInv(hash, s, c) && c.key in s.uploads;
    assert Act(hash, s, c).0.batch == s.batch && Act(hash, s, c).0.gc == s.gc
        && Act(hash, s, c).0.completions == s.completions;
    hide RowsInv, Onward, SessionsInv, Settled, Act;
    if !outcome.FailsBefore? {
      ActTouchesItsOwn(hash, s, c);
      if outcome.Succeeds? {
        ActFinds(hash, s, s', c, s'.completions[i].pc);
      }
    }
    hide Inv, GcInv;
    OwnObjectKeepsInv(hash, s, s', i);
  }

  lemma ListKeepsInv(hash: Bytes -> Digest, s: System, batch: seq<Garbage>)
    requires Inv(hash, s)
    ensures Inv(hash, Apply(hash, s, GcList(batch)))
  {
    var s' := Apply(hash, s, GcList(batch));
    assert SessionsInv(s') && forall k :: Settled(s, k) <==> Settled(s', k);
    hide SessionsInv, Settled;
    forall i | 0 <= i < |s.completions|
      ensures FoundInv(hash, s', s'.completions[i])
    {
      assert FoundInv(hash, s, s.completions[i]);
    }
  }

  lemma TablesKeepInv(hash: Bytes -> Digest, s: System, step: Step)
    requires Inv(hash, s) && (step.MountBlob? || step.GcAbandon?)
    ensures Inv(hash, Apply(hash, s, step))
  {
    var s' := Apply(hash, s, step);
    assert SessionsInv(s') && forall k :: Settled(s, k) <==> Settled(s', k);
    hide SessionsInv, Settled;
    forall i | 0 <= i < |s.completions|
      ensures FoundInv(hash, s', s'.completions[i])
    {
      assert FoundInv(hash, s, s.completions[i]);
    }
  }

  lemma StepKeepsInv(hash: Bytes -> Digest, s: System, step: Step)
    requires Inv(hash, s)
    ensures Inv(hash, Apply(hash, s, step))
  {
    match step
    case Advance(i, outcome) =>
      if i < |s.completions| { AdvanceKeepsInv(hash, s, i, outcome); }
    case GcStep(eligible, deleteFails) =>
      GcStepKeepsInv(hash, s, eligible, deleteFails);
    case GcList(batch) =>
      ListKeepsInv(hash, s, batch);
    case MountBlob(_, _, _) =>
      TablesKeepInv(hash, s, step);
    case GcAbandon =>
      TablesKeepInv(hash, s, step);
    case _ =>
      StepOnward(hash, s, step);
      hide Inv, Onward, SessionsInv;
      SessionStepKeepsInv(hash, s, Apply(hash, s, step));
  }

  lemma {:induction false} Reachable(hash: Bytes -> Digest, steps: seq<Step>)
    ensures Inv(hash, Run(hash, steps))
  {
    if steps != [] {
      Reachable(hash, steps[..|steps| - 1]);
      StepKeepsInv(hash, Run(hash, steps[..|steps| - 1]), steps[|steps| - 1]);
    }
  }

  // ---------------------------------------------------------------- main results

  /**
   Content addressing. After any interleaving, every committed row names an existing object with
   the row's digest and size, and no two rows name the same object.
   */
  lemma ContentAddressed(hash: Bytes -> Digest, steps: seq<Step>)
    ensures var t := Run(hash, steps).t;
      && (forall d :: IsLive(t, d) ==> Holds(hash, t, d))
      && (forall d, e :: d in t.blobs && e in t.blobs && d != e ==> t.blobs[d].key != t.blobs[e].key)
  {
    Reachable(hash, steps);
  }

  lemma DeletesAreOwn(hash: Bytes -> Digest, s: System, step: Step, key: Key)
    requires key in s.t.objects && key !in Apply(hash, s, step).t.objects
    ensures !Settled(s, key) || (s.gc.Deleting? && s.gc.g.key == key)
  {
    if step.Advance? {
      assert s.completions[step.i].key == key && !s.completions[step.i].pc.Finished?;
    }
  }

  /** No delete, whether for a mismatch, a duplicate or garbage, hits an object a committed row names. */
  lemma DeletesSpareCommitted(hash: Bytes -> Digest, steps: seq<Step>, step: Step, key: Key)
    requires var s := Run(hash, steps); key in s.t.objects && key !in Apply(hash, s, step).t.objects
    ensures forall d :: IsLive(Run(hash, steps).t, d) ==> Run(hash, steps).t.blobs[d].key != key
  {
    var s := Run(hash, steps);
    Reachable(hash, steps);
    DeletesAreOwn(hash, s, step, key);
    hide Settled, Apply, Run;
    assert forall d :: d in s.t.blobs ==> Settled(s, s.t.blobs[d].key);
    hide SessionsInv, RowsInv;
  }

  /** At most one PUT per session gets through to a completion. */
  lemma OneCompletionPerSession(hash: Bytes -> Digest, steps: seq<Step>, i: nat, j: nat)
    requires i < j < |Run(hash, steps).completions|
    ensures Run(hash, steps).completions[i].key != Run(hash, steps).completions[j].key
  {
    Reachable(hash, steps);
  }

  /** The moves a session can make in one step. */
  predicate Moves(u: Upload, u': Upload) {
    match u.status
    case Uploading =>
      u'.status in {Uploading, Finalizing, Cancelled, Failed} && u.chunks <= u'.chunks
    case Finalizing =>
      u'.status in {Finalizing, Committed, Failed} && u'.chunks == u.chunks
    case Failed =>
      u'.status in {Failed, Committed} && u'.chunks == u.chunks
    case _ =>
      u' == u
  }

  lemma SessionMoves(hash: Bytes -> Digest, s: System, step: Step, key: Key)
    requires Inv(hash, s) && key in s.uploads
    ensures key in Apply(hash, s, step).uploads && Moves(s.uploads[key], Apply(hash, s, step).uploads[key])
  {
    assert SessionsInv(s);
    hide Inv;
    if step.Advance? {
      AdvanceMoves(hash, s, step.i, step.outcome, key);
    } else {
      hide SessionsInv, Act, GcAct, PutRefusal, PatchRefusal;
    }
  }

  lemma AdvanceMoves(hash: Bytes -> Digest, s: System, i: nat, outcome: Outcome, key: Key)
    requires SessionsInv(s) && key in s.uploads
    ensures var s' := Apply(hash, s, Advance(i, outcome)); key in s'.uploads && Moves(s.uploads[key], s'.uploads[key])
  {
    if i < |s.completions| {
      assert s.uploads[s.completions[i].key].status !in {Uploading, Cancelled};
      hide SessionsInv, CommitBlob, Duplicate, IsLive, TombstoneMissing, PutObject, DeleteObject;
    }
  }

  /** What each request to a session does to it, in any state, and that it leaves all other sessions alone. */
  lemma SessionRequests(hash: Bytes -> Digest, s: System, key: Key)
    ensures key !in s.uploads ==>
              Apply(hash, s, StartUpload(key)) == s.(uploads := s.uploads[key := Upload([], Uploading)])
    ensures key in s.uploads ==>
      var u := s.uploads[key];
      && Apply(hash, s, StartUpload(key)) == s
      && Apply(hash, s, CancelUpload(key))
         == (if u.status.Uploading? then s.(uploads := s.uploads[key := Upload(u.chunks, Cancelled)]) else s)
      && Apply(hash, s, ExpireUpload(key))
         == (if u.status in {Uploading, Finalizing} then s.(uploads := s.uploads[key := Upload(u.chunks, Failed)])
             else s)
    ensures forall limit, range, body ::
      key in s.uploads && Uniform(s.uploads[key].chunks, limit) && s.uploads[key].status.Uploading?
      && 0 < |body| <= limit && NamesNext(range, |Flat(s.uploads[key].chunks)|, |body|)
      && Uniform(s.uploads[key].chunks + [body], limit) ==>
        Apply(hash, s, PatchArrives(key, false, limit, range, body))
        == s.(uploads := s.uploads[key := Upload(s.uploads[key].chunks + [body], Uploading)])
  {
    forall limit, range, body | key in s.uploads && Uniform(s.uploads[key].chunks, limit)
      ensures s.uploads[key].status.Uploading? && 0 < |body| <= limit
              && NamesNext(range, |Flat(s.uploads[key].chunks)|, |body|)
              && Uniform(s.uploads[key].chunks + [body], limit) ==>
                Apply(hash, s, PatchArrives(key, false, limit, range, body))
                == s.(uploads := s.uploads[key := Upload(s.uploads[key].chunks + [body], Uploading)])
    {
      hide Uniform, NamesNext, Flat;
      PatchAcceptedIff(s.uploads[key], false, limit, range, body);
    }
  }

  lemma RunSnoc(hash: Bytes -> Digest, steps: seq<Step>, step: Step)
    ensures Run(hash, steps + [step]) == Apply(hash, Run(hash, steps), step)
  {
    assert (steps + [step])[..|steps|] == steps;
  }

  /**
   Session life cycle. Once a session is closed no part is added to it, whatever follows; once
   committed or cancelled it never changes again.
   */
  lemma {:induction false} ClosedSessionsStay(hash: Bytes -> Digest, steps: seq<Step>, later: seq<Step>, key: Key)
    requires key in Run(hash, steps).uploads && Run(hash, steps).uploads[key].status != Uploading
    ensures var u := Run(hash, steps).uploads[key];
      && key in Run(hash, steps + later).uploads
      && var u' := Run(hash, steps + later).uploads[key];
         && u'.chunks == u.chunks
         && u'.status in {Finalizing, Failed, Committed, Cancelled}
         && (u.status in {Committed, Cancelled} ==> u' == u)
    decreases |later|
  {
    if later == [] {
      assert steps + later == steps;
    } else {
      var before := later[..|later| - 1];
      ClosedSessionsStay(hash, steps, before, key);
      var s, step := Run(hash, steps + before), later[|later| - 1];
      assert steps + later == (steps + before) + [step];
      RunSnoc(hash, steps + before, step);
      hide Apply, Inv, Run;
      Reachable(hash, steps + before);
      SessionMoves(hash, s, step, key);
    }
  }

  // ---------------------------------------------------------------- one completion alone

  /** What is left for a completion to do to the tables, from each point of its way. */
  function FromCommit(t: Tables, c: Completion, size: int): Tables {
    var t' := CommitBlob(t, c.repo, c.key, c.digest, size);
    if Duplicate(t, c.key, c.digest) then DeleteObject(t', c.key) else t'
  }

  function FromProbe(t: Tables, c: Completion, size: int, held: Key): Tables {
    FromCommit(if held in t.objects then t else TombstoneMissing(t, c.digest, held), c, size)
  }

  function FromRepair(t: Tables, c: Completion, size: int): Tables {
    if IsLive(t, c.digest) then FromProbe(t, c, size, t.blobs[c.digest].key) else FromCommit(t, c, size)
  }

  function FromHash(hash: Bytes -> Digest, t: Tables, c: Completion): Tables {
    if c.key !in t.objects then t
    else if hash(t.objects[c.key]) != c.digest then DeleteObject(t, c.key)
    else FromRepair(t, c, |t.objects[c.key]|)
  }

  function Remaining(hash: Bytes -> Digest, t: Tables, bytes: Bytes, c: Completion): Tables {
    match c.pc
    case Assembling => FromHash(hash, PutObject(t, c.key, bytes), c)
    case Hashing => FromHash(hash, t, c)
    case Mismatched => DeleteObject(t, c.key)
    case MarkingFailed => t
    case Repairing(size) => FromRepair(t, c, size)
    case Probing(size, held) => FromProbe(t, c, size, held)
    case Tombstoning(size, held) => FromCommit(TombstoneMissing(t, c.digest, held), c, size)
    case Committing(size) => FromCommit(t, c, size)
    case Deduplicating => DeleteObject(t, c.key)
    case Finished => t
  }

  function StepsLeft(pc: Pc): nat {
    match pc
    case Assembling => 7
    case Hashing => 6
    case Repairing(_) => 5
    case Probing(_, _) => 4
    case Tombstoning(_, _) => 3
    case Committing(_) => 2
    case Mismatched => 2
    case MarkingFailed => 1
    case Deduplicating => 1
    case Finished => 0
  }

  function AdvanceAlone(hash: Bytes -> Digest, s: System, i: nat, n: nat): System
    decreases n
  {
    if n == 0 then s else AdvanceAlone(hash, Apply(hash, s, Advance(i, Succeeds)), i, n - 1)
  }

  lemma ActOnTheWay(hash: Bytes -> Digest, s: System, c: Completion)
    requires c.key in s.uploads
    ensures var (s', pc) := Act(hash, s, c);
      Remaining(hash, s'.t, Flat(s.uploads[c.key].chunks), c.(pc := pc))
      == Remaining(hash, s.t, Flat(s.uploads[c.key].chunks), c)
  {
    hide CommitBlob, Duplicate, TombstoneMissing, DeleteObject, IsLive;
  }

  lemma ActGoesOn(hash: Bytes -> Digest, s: System, c: Completion)
    requires c.key in s.uploads
    ensures var (s', pc) := Act(hash, s, c);
      && (StepsLeft(pc) < StepsLeft(c.pc) || (c.pc.Finished? && pc.Finished?))
      && c.key in s'.uploads && s'.uploads[c.key].chunks == s.uploads[c.key].chunks
      && s'.completions == s.completions
  {
    hide CommitBlob, Duplicate, TombstoneMissing, DeleteObject, PutObject, IsLive;
  }

  /**
   A completion nobody interrupts, taken step by step to its end, does to the tables what
   BlobTables.Complete does in one piece.
   */
  lemma {:induction false} AloneIsComplete(hash: Bytes -> Digest, s: System, i: nat, n: nat)
    requires i < |s.completions| && s.completions[i].key in s.uploads
    requires n >= StepsLeft(s.completions[i].pc)
    ensures var c := s.completions[i];
            var bytes := Flat(s.uploads[c.key].chunks);
            var s' := AdvanceAlone(hash, s, i, n);
      && s'.t == Remaining(hash, s.t, bytes, c)
      && (c.pc.Assembling? ==> s'.t == Complete(hash, s.t, c.repo, c.key, bytes, c.digest).0)
    decreases n
  {
    if n > 0 {
      ActOnTheWay(hash, s, s.completions[i]);
      ActGoesOn(hash, s, s.completions[i]);
      var s' := Apply(hash, s, Advance(i, Succeeds));
      hide Act, Remaining, Complete;
      AloneIsComplete(hash, s', i, n - 1);
    }
    if s.completions[i].pc.Assembling? {
      AssembledIsComplete(hash, s.t, Flat(s.uploads[s.completions[i].key].chunks), s.completions[i]);
    }
  }

  lemma AssembledIsComplete(hash: Bytes -> Digest, t: Tables, bytes: Bytes, c: Completion)
    requires c.pc.Assembling?
    ensures Remaining(hash, t, bytes, c) == Complete(hash, t, c.repo, c.key, bytes, c.digest).0
  {
  }

  lemma InvIsConsistent(hash: Bytes -> Digest, s: System, key: Key)
    requires Inv(hash, s) && key in s.uploads && s.uploads[key].status == Uploading
    ensures Consistent(hash, s.t) && Unnamed(s.t, key)
  {
    assert !Settled(s, key);
    hide Settled, SessionsInv, GcInv, FoundInv;
  }

  /**
   Progress. From any reachable state, a PUT that is not refused and then seven steps of its
   completion commit the session's bytes under their digest and link them. A PUT for any other
   digest leaves rows and links alone, and leaves no object under its key.
   */
  lemma PutCommits(hash: Bytes -> Digest, steps: seq<Step>, key: Key, expired: bool, limit: nat, range: ContentRange,
                   body: Bytes, repo: Repo, digest: Digest)
    requires var s := Run(hash, steps);
             key in s.uploads && PutRefusal(s.uploads[key], expired, limit, range, body).None?
    ensures var s := Run(hash, steps);
            var bytes := Flat(s.uploads[key].chunks) + body;
            var put := PutArrives(key, expired, limit, range, body, repo, digest);
            var t' := AdvanceAlone(hash, Run(hash, steps + [put]), |s.completions|, 7).t;
      if hash(bytes) == digest
      then IsLive(t', digest) && Holds(hash, t', digest) && t'.links == s.t.links + {(repo, digest)}
      else t'.blobs == s.t.blobs && t'.links == s.t.links && t'.objects == s.t.objects - {key}
  {
    var s := Run(hash, steps);
    var put := PutArrives(key, expired, limit, range, body, repo, digest);
    var s1 := Run(hash, steps + [put]);
    Reachable(hash, steps);
    RunSnoc(hash, steps, put);
    PutBytes(s.uploads[key], expired, limit, range, body);
    hide Run, Inv, Remaining, Complete, PutRefusal, Put, Act, Consistent, Unnamed, Holds;
    assert s1.t == s.t && s1.completions == s.completions + [Completion(key, repo, digest, Assembling)];
    InvIsConsistent(hash, s, key);
    AloneIsComplete(hash, s1, |s.completions|, 7);
    CompleteCommits(hash, s.t, repo, key, Flat(s.uploads[key].chunks) + body, digest);
  }

  lemma PutBytes(u: Upload, expired: bool, limit: nat, range: ContentRange, body: Bytes)
    requires PutRefusal(u, expired, limit, range, body).None?
    ensures u.status == Uploading && Flat(Put(u, expired, limit, range, body).chunks) == Flat(u.chunks) + body
  {
    FlatSnoc(u.chunks, body);
  }

  // ---------------------------------------------------------------- the collector alone

  /**
   A turn of the collector that nobody interrupts frees the first blob of its list: claim, delete,
   unlink. If the delete fails, restoring the claim leaves the tables as they were.
   */
  lemma CollectorFrees(hash: Bytes -> Digest, s: System)
    requires s.gc.Claiming? && s.batch != [] && IsLive(s.t, s.batch[0].digest)
    requires s.t.blobs[s.batch[0].digest].key == s.batch[0].key
    ensures var claimed := Apply(hash, s, GcStep(true, false));
            var freed := Apply(hash, Apply(hash, claimed, GcStep(true, false)), GcStep(true, false));
            var restored := Apply(hash, Apply(hash, claimed, GcStep(true, true)), GcStep(true, false));
      && Freed(s.t, freed.t, {s.batch[0].digest}) && freed == s.(t := freed.t, batch := s.batch[1..])
      && restored == s.(batch := [])
  {
    var d := s.batch[0].digest;
    CollectingFrees(s.t, d);
    assert Restore(Tombstone(s.t, d), d).blobs == s.t.blobs;
    hide Freed;
  }
}
