/**
 Pushing one blob in chunks over a network that loses, repeats and reorders messages (OCI
 Distribution Specification v1.1, section "Pushing a blob in chunks"). Any number of clients
 share one upload session. A message, once sent, stays in `pool` and may reach the server at any
 later time, any number of times or never; an offset, once reported by the server, stays in
 `acks` and may be read by any client at any later time or never.
 */
module Protocol {
  import opened Common
  import opened Digests
  import opened Uploads

  datatype Message =
    | PatchMessage(start: nat, body: Bytes)
    | PutMessage(start: nat, body: Bytes)

  datatype Config = Config(blob: Bytes, chunk: nat, limit: nat, hash: Bytes -> Digest)

  datatype World = World(
    upload: Upload,
    pool: set<Message>,
    acks: set<nat>,
    stored: Option<Bytes>,
    mismatched: bool)

  /** The Content-Range a client puts on a message: none on a final PUT without bytes. */
  function RangeOf(m: Message): ContentRange {
    if m.body == [] then Absent else Range(m.start, m.start + |m.body| - 1)
  }

  /**
   What `upload_blob` may send once the offsets `acked` have been reported to it: the next full
   chunk after one of them, or the rest of the blob when that is shorter than a chunk.
   */
  predicate Allowed(blob: Bytes, chunk: nat, acked: set<nat>, m: Message) {
    m.start in acked && CutFrom(blob, chunk, m)
  }

  predicate CutFrom(blob: Bytes, chunk: nat, m: Message) {
    match m
    case PatchMessage(start, body) => start + chunk <= |blob| && body == blob[start..start + chunk]
    case PutMessage(start, body) => start <= |blob| < start + chunk && body == blob[start..]
  }

  datatype Step =
    | Send(m: Message)
    | Deliver(m: Message, expired: bool, fails: bool)
    | ReportStatus
    | Assemble
    | CheckDigest
    | Commit
    | Cancel
    | Expire

  const INITIAL: World := World(Upload([], Uploading), {}, {0}, None, false)

  /** One step; a step that is not enabled changes nothing. */
  function Apply(cfg: Config, w: World, step: Step): World {
    match step
    case Send(m) =>
      if Allowed(cfg.blob, cfg.chunk, w.acks, m) then w.(pool := w.pool + {m}) else w
    case Deliver(m, expired, fails) =>
      if m !in w.pool || fails then w
      else
        (match m
         case PatchMessage(_, body) =>
           if PatchRefusal(w.upload, expired, cfg.limit, RangeOf(m), body).Some? then w
           else
             var u := Patch(w.upload, expired, cfg.limit, RangeOf(m), body);
             w.(upload := u, acks := w.acks + {Offset(u)})
         case PutMessage(_, body) =>
           w.(upload := Put(w.upload, expired, cfg.limit, RangeOf(m), body)))
    case ReportStatus =>
      if w.upload.status.Uploading? then w.(acks := w.acks + {Offset(w.upload)}) else w
    case Assemble =>
      if w.upload.status.Finalizing? then w.(stored := Some(Flat(w.upload.chunks))) else w
    case CheckDigest =>
      if w.stored.Some? && cfg.hash(w.stored.value) != cfg.hash(cfg.blob)
      then w.(upload := w.upload.(status := Failed), mismatched := true)
      else w
    case Commit =>
      if w.stored.Some? && !w.mismatched then w.(upload := w.upload.(status := Committed)) else w
    case Cancel =>
      if w.upload.status.Uploading? then w.(upload := w.upload.(status := Cancelled)) else w
    case Expire =>
      if w.upload.status in {Uploading, Finalizing} then w.(upload := w.upload.(status := Failed)) else w
  }

  function Run(cfg: Config, steps: seq<Step>): World {
    if steps == [] then INITIAL else Apply(cfg, Run(cfg, steps[..|steps| - 1]), steps[|steps| - 1])
  }

  /** What every reachable world satisfies. */
  ghost predicate Inv(cfg: Config, w: World) {
    && Flat(w.upload.chunks) <= cfg.blob
    && (forall a :: a in w.acks ==> a <= Offset(w.upload))
    && (forall m :: m in w.pool ==> Allowed(cfg.blob, cfg.chunk, w.acks, m))
    && (w.upload.status.Uploading? ==> forall c :: c in w.upload.chunks ==> |c| == cfg.chunk)
    && (w.upload.status in {Finalizing, Committed} || w.stored.Some? ==> Flat(w.upload.chunks) == cfg.blob)
    && (w.stored.Some? ==> w.stored.value == cfg.blob && !w.upload.status.Uploading?)
    && !w.mismatched
  }

  /** A message that continues the accepted bytes continues them with bytes of the blob. */
  lemma NextBytes(cfg: Config, acked: set<nat>, m: Message, accepted: Bytes)
    requires accepted <= cfg.blob && Allowed(cfg.blob, cfg.chunk, acked, m)
    requires forall a :: a in acked ==> a <= |accepted|
    requires m.body != [] ==> m.start == |accepted|
    ensures accepted + m.body <= cfg.blob
    ensures m.PutMessage? ==> accepted + m.body == cfg.blob
  {
    assert accepted == cfg.blob[..|accepted|];
    if m.body != [] {
      assert accepted + m.body == cfg.blob[..|accepted| + |m.body|];
    } else {
      assert accepted + m.body == accepted;
    }
  }

  lemma PatchKeepsInv(cfg: Config, w: World, m: Message, expired: bool)
    requires Inv(cfg, w) && m in w.pool && m.PatchMessage?
    ensures Inv(cfg, Apply(cfg, w, Deliver(m, expired, false)))
    ensures Flat(w.upload.chunks) <= Flat(Apply(cfg, w, Deliver(m, expired, false)).upload.chunks)
  {
    hide Flat, SizeRefusal;
    if PatchRefusal(w.upload, expired, cfg.limit, RangeOf(m), m.body).None? {
      FlatSnoc(w.upload.chunks, m.body);
      NextBytes(cfg, w.acks, m, Flat(w.upload.chunks));
      assert |m.body| == cfg.chunk;
      hide PatchRefusal, RangeRefusal, CutFrom;
    }
  }

  lemma PutKeepsInv(cfg: Config, w: World, m: Message, expired: bool)
    requires Inv(cfg, w) && m in w.pool && m.PutMessage?
    ensures Inv(cfg, Apply(cfg, w, Deliver(m, expired, false)))
    ensures Flat(w.upload.chunks) <= Flat(Apply(cfg, w, Deliver(m, expired, false)).upload.chunks)
  {
    hide Flat, SizeRefusal;
    if PutRefusal(w.upload, expired, cfg.limit, RangeOf(m), m.body).None? {
      FlatSnoc(w.upload.chunks, m.body);
      NextBytes(cfg, w.acks, m, Flat(w.upload.chunks));
      assert Flat(w.upload.chunks) + [] == Flat(w.upload.chunks);
      hide PutRefusal, RangeRefusal, CutFrom;
    }
  }

  lemma StepKeepsInv(cfg: Config, w: World, step: Step)
    requires Inv(cfg, w)
    ensures Inv(cfg, Apply(cfg, w, step))
    ensures Flat(w.upload.chunks) <= Flat(Apply(cfg, w, step).upload.chunks)
  {
    if step.Deliver? && step.m in w.pool && !step.fails {
      if step.m.PatchMessage? {
        PatchKeepsInv(cfg, w, step.m, step.expired);
      } else {
        PutKeepsInv(cfg, w, step.m, step.expired);
      }
    }
  }

  /**
   Exactly-once bytes. After any run the accepted bytes are the prefix of the blob as long as the
   accepted offset; they only ever grow at the end; the session leaves `uploading` through a PUT
   only with the whole blob; and the branch for a wrong digest is never taken.
   */
  lemma {:induction false} ExactlyOnce(cfg: Config, steps: seq<Step>, earlier: nat)
    requires earlier <= |steps|
    ensures var w := Run(cfg, steps);
      && Inv(cfg, w)
      && Offset(w.upload) <= |cfg.blob|
      && Flat(w.upload.chunks) == cfg.blob[..Offset(w.upload)]
      && Flat(Run(cfg, steps[..earlier]).upload.chunks) <= Flat(w.upload.chunks)
      && (w.upload.status in {Finalizing, Committed} ==> Flat(w.upload.chunks) == cfg.blob)
      && (w.stored.Some? ==> w.stored.value == cfg.blob)
      && !w.mismatched
  {
    if steps == [] {
      assert steps[..earlier] == [];
    } else {
      var before := steps[..|steps| - 1];
      if earlier < |steps| {
        ExactlyOnce(cfg, before, earlier);
        assert before[..earlier] == steps[..earlier];
      } else {
        ExactlyOnce(cfg, before, |before|);
        assert steps[..earlier] == steps;
      }
      StepKeepsInv(cfg, Run(cfg, before), steps[|steps| - 1]);
    }
  }

  lemma PoolIsAllowed(cfg: Config, steps: seq<Step>, m: Message)
    requires m in Run(cfg, steps).pool
    ensures Allowed(cfg.blob, cfg.chunk, Run(cfg, steps).acks, m)
  {
    ExactlyOnce(cfg, steps, 0);
  }

  /** What the server answers to a message that reaches a session still open. */
  function RefusalOf(cfg: Config, u: Upload, m: Message): Option<Refusal> {
    if m.PatchMessage? then PatchRefusal(u, false, cfg.limit, RangeOf(m), m.body)
    else PutRefusal(u, false, cfg.limit, RangeOf(m), m.body)
  }

  /**
   Among the size guards only the server's own limit gets in a client's way: a message that reaches
   an open, unexpired session is refused for its size exactly when it is over that limit, and
   otherwise exactly when its offset is not the accepted one, short of running out of part numbers.
   */
  lemma RefusedOnlyForItsOffset(cfg: Config, steps: seq<Step>, m: Message)
    requires 0 < cfg.chunk
    requires m in Run(cfg, steps).pool && Run(cfg, steps).upload.status.Uploading?
    requires |Run(cfg, steps).upload.chunks| + 2 <= MAX_I32
    ensures var u := Run(cfg, steps).upload;
      RefusalOf(cfg, u, m) ==
        if |m.body| > cfg.limit then Some(TooLarge) else if m.start == Offset(u) then None else Some(WrongOffset)
    ensures m.PatchMessage? && cfg.limit < cfg.chunk ==> RefusalOf(cfg, Run(cfg, steps).upload, m) == Some(TooLarge)
  {
    var w := Run(cfg, steps);
    ExactlyOnce(cfg, steps, 0);
    assert Allowed(cfg.blob, cfg.chunk, w.acks, m);
    var chunks := w.upload.chunks;
    if chunks != [] {
      assert chunks[0] in chunks && chunks[|chunks| - 1] in chunks;
    }
  }

  lemma {:induction false} EqualChunks(chunks: seq<Bytes>, size: nat)
    requires forall c :: c in chunks ==> |c| == size
    ensures |Flat(chunks)| == |chunks| * size
  {
    if chunks != [] {
      var front := chunks[..|chunks| - 1];
      EqualChunks(front, size);
      assert |Flat(chunks)| == |Flat(front)| + size;
      hide Flat;
      OneMoreTime(|front|, size);
    }
  }

  lemma OneMoreTime(n: nat, size: nat)
    ensures (n + 1) * size == n * size + size
  {
  }

  ghost predicate IsWhole(offset: nat, chunk: nat) {
    exists k: nat :: offset == k * chunk
  }

  /** A session open to PATCHes reports whole numbers of chunks, and no other ever reports. */
  lemma {:induction false} ReportsAreWholeChunks(cfg: Config, steps: seq<Step>)
    ensures forall a :: a in Run(cfg, steps).acks ==> IsWhole(a, cfg.chunk)
  {
    if steps == [] {
      assert 0 == 0 * cfg.chunk;
      assert IsWhole(0, cfg.chunk);
    } else {
      var before := steps[..|steps| - 1];
      ReportsAreWholeChunks(cfg, before);
      ExactlyOnce(cfg, steps, 0);
      hide IsWhole, Flat, Inv, PatchRefusal, PutRefusal;
      StepReportsOffset(cfg, Run(cfg, before), steps[|steps| - 1]);
      var w, w' := Run(cfg, before), Run(cfg, steps);
      if w'.acks != w.acks {
        OffsetIsWhole(cfg, w');
      }
    }
  }

  lemma StepReportsOffset(cfg: Config, w: World, step: Step)
    ensures var w' := Apply(cfg, w, step);
      w'.acks == w.acks || (w'.upload.status.Uploading? && w'.acks == w.acks + {Offset(w'.upload)})
  {
  }

  lemma OffsetIsWhole(cfg: Config, w: World)
    requires Inv(cfg, w) && w.upload.status.Uploading?
    ensures IsWhole(Offset(w.upload), cfg.chunk)
  {
    EqualChunks(w.upload.chunks, cfg.chunk);
  }
}
