/**
 What travels between the pushing client and the registry, what may happen to it on the way, and
 what is recorded of it: the values on which module Network runs.
 */
module Wire {
  import opened Common
  import opened Digests
  import opened Storage
  import opened BlobTables
  import opened Manifests
  import opened Registry
  import opened Ranges
  import opened Text
  import Protocol
  import Uploads

  datatype Reply =
    | Response(status: nat, location: Option<string>, range: Option<string>)
    /** No answer in time, or no connection. */
    | Unreachable
    | Broken

  const CHUNK_SIZE: nat := 64 * 1024 * 1024

  const OK := 200
  const CREATED := 201
  const ACCEPTED := 202
  const NO_CONTENT := 204
  const UNAUTHORIZED := 401
  const NOT_FOUND := 404
  const SERVER_ERROR := 500

  predicate IsSuccess(status: nat) {
    200 <= status < 300
  }

  /** `transient`. */
  predicate IsTransient(status: nat) {
    status == 429 || 500 <= status < 600
  }

  /** The status of a manifest PUT that is refused. */
  function StatusOf(error: Error): nat {
    match error
    case SizeInvalid => 413
    case TagImmutable => 409
    case PatternInvalid => SERVER_ERROR
    case _ => 400
  }

  /** The status of an upload request that is refused or fails. */
  function SessionStatus(refusal: Uploads.Refusal): nat {
    match refusal
    case TooLarge => 413
    case Unavailable => NOT_FOUND
    case WrongOffset => 416
    case StoreFailed => SERVER_ERROR
    case DatabaseFailed => SERVER_ERROR
    case PartNumbersExhausted => SERVER_ERROR
    case _ => 400
  }

  /** What happens to one call. */
  datatype Weather = Weather(
    /** Requests of others, run before the call. */
    others: seq<Request>,
    /** What happens to upload sessions before the call: others use them, old messages arrive. */
    steps: seq<(string, Protocol.Step)>,
    /** Whether the call reaches its handler. */
    reaches: bool,
    /** What the client sees instead of the handler's reply. */
    instead: Option<Reply>,
    /** Where a new session would be opened. */
    location: string,
    /** Whether the session has expired, and whether the bucket or the database fails. */
    expired: bool,
    fails: bool,
    /** The key of the object a session becomes, and where its completion stops. */
    key: Key,
    stop: Stop)

  /** What the client sees. Nothing but the handler says that a call succeeded. */
  function Seen(w: Weather, handled: Reply): Reply {
    match w.instead
    case Some(Response(status, location, range)) =>
      if IsSuccess(status) then if w.reaches then handled else Unreachable else w.instead.value
    case Some(error) => error
    case None => if w.reaches then handled else Unreachable
  }

  /** Nobody else is served, the call and its reply get through, and nothing fails. */
  predicate Clear(w: Weather) {
    w.others == [] && w.steps == [] && w.reaches && w.instead.None? && !w.expired && !w.fails
  }

  // ---------------------------------------------------------------- what goes wrong

  /** A reply after which the client tries again, with a new token or after a while. */
  predicate IsHitch(reply: Reply) {
    reply.Unreachable? || (reply.Response? && (reply.status == UNAUTHORIZED || IsTransient(reply.status)))
  }

  /** How many calls of a kind had such a reply, and how many one that is final but not the one hoped for. */
  datatype Tally = Tally(hitches: nat, fatal: nat)

  /** The tallies of HEAD, POST, GET, PATCH and PUT, and of the PUTs of manifests; `refused` counts tokens not got. */
  datatype Troubles = Troubles(head: Tally, post: Tally, get: Tally, patch: Tally, put: Tally, manifest: Tally,
                               refused: nat)

  const NO_TROUBLE: Troubles :=
    Troubles(Tally(0, 0), Tally(0, 0), Tally(0, 0), Tally(0, 0), Tally(0, 0), Tally(0, 0), 0)

  function Counted(t: Tally, reply: Reply, hopedFor: bool): Tally {
    if hopedFor then t
    else if IsHitch(reply) then t.(hitches := t.hitches + 1)
    else t.(fatal := t.fatal + 1)
  }

  predicate Created(reply: Reply) {
    reply.Response? && reply.status == CREATED
  }

  predicate Opened(reply: Reply) {
    reply.Response? && reply.status in {ACCEPTED, CREATED} && reply.location.Some?
  }

  predicate Answered(reply: Reply) {
    reply.Response? && IsSuccess(reply.status) && reply.location.Some? && StatusOffset(reply.range).Some?
  }

  predicate Accepted(reply: Reply) {
    && reply.Response? && reply.status == ACCEPTED && reply.location.Some?
    && reply.range.Some? && ParseRangeOffset(reply.range.value).Some?
  }

  predicate Told(reply: Reply) {
    reply.Response? && (IsSuccess(reply.status) || reply.status == NOT_FOUND)
  }

  /** The tag or digest the client pushes to, the manifest it pushes there, and the image's files. */
  datatype Target = Target(repo: Repo, reference: string, root: Digest, files: map<Digest, Bytes>)

  /** If `bytes` have the digest of a file of the image, they have its size. */
  predicate NoClash(hash: Bytes -> Digest, files: map<Digest, Bytes>, bytes: Bytes) {
    var d := hash(bytes);
    d in files && hash(files[d]) == d ==> |bytes| == |files[d]|
  }

  /** Committed rows with the digest of a file of the image have its size. */
  ghost predicate SizesTrue(hash: Bytes -> Digest, files: map<Digest, Bytes>, t: Tables) {
    forall d :: d in t.blobs && t.blobs[d].status.Live? && d in files && hash(files[d]) == d ==>
      t.blobs[d].size == |files[d]|
  }

  /** What the client needs of the registry's state. */
  ghost predicate StateTrue(env: Env, target: Target, s: State) {
    Consistent(env.codec.hash, s.t) && SizesTrue(env.codec.hash, target.files, s.t)
  }

  /**
   Requests that neither delete, nor collect, nor put something else under the target, nor bring
   bytes that collide with a file of the image at another size.
   */
  predicate Harmless(env: Env, r: Request, target: Target) {
    match r
    case FinishUpload(_, _, bytes, _, _) => NoClash(env.codec.hash, target.files, bytes)
    case MountBlob(_, _, _) => true
    case SetPattern(_, _) => true
    case PushManifest(repo, reference, _, raw) =>
      !(repo == target.repo && reference == target.reference) || env.codec.hash(raw) == target.root
    case RemoveManifest(_, _, _) => false
    case CollectBlob(_, _, _) => false
  }

  /** Everything a push relies on stays. */
  ghost predicate Grows(s: State, s': State, target: Target) {
    && Keeps(s.t, s'.t)
    && s.db.live <= s'.db.live
    && s.db.manifests.Keys <= s'.db.manifests.Keys
    && (Lookup(s.db.tags, (target.repo, target.reference)) == Some(target.root) ==>
          Lookup(s'.db.tags, (target.repo, target.reference)) == Some(target.root))
  }

  lemma GrowsOn(s: State, s': State, s'': State, target: Target)
    requires Grows(s, s', target) && Grows(s', s'', target)
    ensures Grows(s, s'', target)
  {
  }

  lemma GrowsAlways(target: Target)
    ensures forall s :: Grows(s, s, target)
    ensures forall s, s', s'' :: Grows(s, s', target) && Grows(s', s'', target) ==> Grows(s, s'', target)
  {
    forall s, s', s'' | Grows(s, s', target) && Grows(s', s'', target)
      ensures Grows(s, s'', target)
    {
      GrowsOn(s, s', s'', target);
    }
  }

  lemma CompletionKeepsSizes(env: Env, t: Tables, repo: Repo, key: Key, bytes: Bytes, expected: Digest, stop: Stop,
                             target: Target)
    requires SizesTrue(env.codec.hash, target.files, t) && NoClash(env.codec.hash, target.files, bytes)
    ensures SizesTrue(env.codec.hash, target.files,
                      CompleteUntil(env.codec.hash, t, repo, key, bytes, expected, stop).0)
  {
    CompletionRows(env.codec.hash, t, repo, key, bytes, expected, stop);
    hide CompleteUntil;
  }

  lemma HarmlessGrows(env: Env, s: State, r: Request, target: Target)
    requires StateTrue(env, target, s) && Harmless(env, r, target)
    ensures var s' := Registry.Apply(env, s, r); StateTrue(env, target, s') && Grows(s, s', target)
  {
    match r
    case FinishUpload(repo, key, bytes, expected, stop) =>
      if FreshKey(s.t, key) {
        hide Consistent, Keeps, CompleteUntil;
        CompletionKeeps(env.codec.hash, s.t, repo, key, bytes, expected, stop);
        CompletionKeepsSizes(env, s.t, repo, key, bytes, expected, stop, target);
        hide SizesTrue, NoClash;
      }
    case MountBlob(source, target_, digest) =>
    case SetPattern(_, _) =>
    case PushManifest(repo, reference, supplied, raw) =>
      PushGrows(env, s, repo, reference, supplied, raw);
  }

  /** Where a push leaves the rest of the state. */
  lemma PushGrows(env: Env, s: State, repo: Repo, reference: string, supplied: Option<string>, raw: Bytes)
    ensures var s' := Registry.PutManifest(env, s, repo, reference, supplied, raw);
      && s'.t == s.t && s.db.live <= s'.db.live && s.db.manifests.Keys <= s'.db.manifests.Keys
      && (forall k :: k in s.db.tags && (k != (repo, reference) || s.db.tags[k] == env.codec.hash(raw)) ==>
            k in s'.db.tags && s'.db.tags[k] == s.db.tags[k])
      && (PushRefusal(env, s, repo, reference, supplied, raw).None? ==>
            && (repo, env.codec.hash(raw)) in s'.db.live && env.codec.hash(raw) in s'.db.manifests
            && (Digests.Parse(reference).Err? ==> Lookup(s'.db.tags, (repo, reference)) == Some(env.codec.hash(raw)))
            && (Digests.Parse(reference).Ok? ==> Digests.Parse(reference).value == env.codec.hash(raw)))
  {
    hide Manifests.Parse, Digests.Parse, InsertEdges, DependencyRefusal, TagRefusal;
    if PushRefusal(env, s, repo, reference, supplied, raw).None? {
      ParsedDigest(env.codec, raw, supplied);
    }
  }

  // ---------------------------------------------------------------- what is recorded

  datatype Event =
    | Started(reply: Reply)
    | Asked(location: string, reply: Reply)
    | Patched(location: string, message: Protocol.Message, reply: Reply)
    | Completed(location: string, message: Protocol.Message, digest: Digest, reply: Reply)

  /** A manifest PUT that reached its handler. */
  datatype Push = Push(reference: string, bytes: Bytes, refusal: Option<Error>)

  /** The position a reply reports: the place to go on, and the offset there. */
  function Reports(e: Event): Option<(string, nat)> {
    match e
    case Started(Response(status, Some(location), _)) =>
      if status in {CREATED, ACCEPTED} then Some((location, 0)) else None
    case Asked(_, Response(status, Some(location), range)) =>
      if IsSuccess(status) && StatusOffset(range).Some? then Some((location, StatusOffset(range).value)) else None
    case Patched(_, _, Response(status, Some(location), Some(range))) =>
      if status == ACCEPTED && ParseRangeOffset(range).Some?
      then Some((location, ParseRangeOffset(range).value))
      else None
    case _ => None
  }

  /** The offsets reported for a session so far. */
  function Acked(trace: seq<Event>, location: string): set<nat> {
    set i | 0 <= i < |trace| && Reports(trace[i]).Some? && Reports(trace[i]).value.0 == location ::
      Reports(trace[i]).value.1
  }

  predicate Sends(e: Event) {
    e.Patched? || e.Completed?
  }

  /** The header of a message is the range it stands for in module Protocol. */
  predicate HeaderOf(m: Protocol.Message, header: Option<string>) {
    header == if m.body == [] then None else Some(Pair(m.start, m.start + |m.body| - 1))
  }

  /** However large the numbers are, the pair is not read as another start. */
  lemma StartReadsBack(start: nat, end: nat)
    ensures ParseContentRange(Pair(start, end)).Range? ==>
              ParseContentRange(Pair(start, end)) == Uploads.Range(start, end)
    ensures !ParseContentRange(Pair(start, end)).Absent?
  {
    PairParses(start, end);
    DecimalParses(start, true, MAX_I64);
    DecimalParses(end, true, MAX_I64);
    hide Pair, Decimal, ParseInteger, SplitOnce;
    SplitNothing(Pair(start, end), '/');
  }

  lemma HeaderReadsBack(m: Protocol.Message, header: Option<string>)
    requires HeaderOf(m, header) && m.start + |m.body| <= MAX_I64
    ensures (if header.None? then Uploads.Absent else ParseContentRange(header.value)) == Protocol.RangeOf(m)
  {
    hide Pair, ParseContentRange;
    if m.body != [] {
      ContentRangeRoundTrip(m.start, m.start + |m.body| - 1, "");
    }
  }

  lemma StateParts(env: Env, target: Target, s: State)
    requires StateTrue(env, target, s)
    ensures Consistent(env.codec.hash, s.t) && SizesTrue(env.codec.hash, target.files, s.t)
  {
  }

  // ---------------------------------------------------------------- upload sessions

  /** What all sessions share, and what each is for. */
  datatype Terms = Terms(purpose: string -> Bytes, limit: nat, hash: Bytes -> Digest)

  function ConfigOf(terms: Terms, location: string): Protocol.Config {
    Protocol.Config(terms.purpose(location), CHUNK_SIZE, terms.limit, terms.hash)
  }

  ghost predicate IsRun(terms: Terms, sessions: map<string, Protocol.World>, runs: map<string, seq<Protocol.Step>>,
                        l: string)
    requires l in sessions
  {
    l in runs && sessions[l] == Protocol.Run(ConfigOf(terms, l), runs[l])
  }

  /** The counters of every session make sense, and unless this client spoiled it, it is a run of Protocol. */
  ghost predicate SessionsTrue(terms: Terms, sessions: map<string, Protocol.World>,
                               runs: map<string, seq<Protocol.Step>>, spoiled: set<string>)
  {
    && terms.limit < 0x1_0000_0000
    && (forall l :: l in spoiled ==> l in sessions)
    && (forall l :: l in sessions ==> Uploads.Uniform(sessions[l].upload.chunks, terms.limit))
    && (forall l :: l in sessions && l !in spoiled ==> IsRun(terms, sessions, runs, l))
  }

  /** What the client was told was reported, and what it sent is on its way. */
  ghost predicate EventTrue(sessions: map<string, Protocol.World>, e: Event) {
    && (Reports(e).Some? ==> Reports(e).value.0 in sessions && Reports(e).value.1 in sessions[Reports(e).value.0].acks)
    && (Reports(e).Some? && !e.Started? ==> Reports(e).value.0 == e.location)
    && (Sends(e) ==> e.location in sessions && e.message in sessions[e.location].pool)
  }

  ghost predicate TraceTrue(sessions: map<string, Protocol.World>, trace: seq<Event>) {
    forall i :: 0 <= i < |trace| ==> EventTrue(sessions, trace[i])
  }

  /** Reports and messages accumulate. */
  ghost predicate SessionsGrow(sessions: map<string, Protocol.World>, sessions': map<string, Protocol.World>) {
    forall l :: l in sessions ==>
      l in sessions' && sessions[l].acks <= sessions'[l].acks && sessions[l].pool <= sessions'[l].pool
  }

  /** What holds between the client's calls: of the registry's state, of the sessions, and of the record. */
  ghost predicate RemoteTrue(env: Env, target: Target, terms: Terms, state: State,
                             sessions: map<string, Protocol.World>, runs: map<string, seq<Protocol.Step>>,
                             spoiled: set<string>, trace: seq<Event>)
  {
    && StateTrue(env, target, state)
    && SessionsTrue(terms, sessions, runs, spoiled)
    && TraceTrue(sessions, trace)
  }

  lemma TraceStaysTrue(sessions: map<string, Protocol.World>, sessions': map<string, Protocol.World>, trace: seq<Event>)
    requires TraceTrue(sessions, trace) && SessionsGrow(sessions, sessions')
    ensures TraceTrue(sessions', trace)
  {
    hide Reports;
    forall i | 0 <= i < |trace|
      ensures EventTrue(sessions', trace[i])
    {
      assert EventTrue(sessions, trace[i]);
    }
  }

  lemma StepGrows(cfg: Protocol.Config, w: Protocol.World, step: Protocol.Step)
    requires Uploads.Uniform(w.upload.chunks, cfg.limit)
    ensures var w' := Protocol.Apply(cfg, w, step);
      w.acks <= w'.acks && w.pool <= w'.pool && Uploads.Uniform(w'.upload.chunks, cfg.limit)
  {
    hide Uploads.Uniform, Uploads.PatchRefusal, Uploads.PutRefusal;
    if step.Deliver? {
      Uploads.PatchKeepsUniform(w.upload, step.expired, cfg.limit, Protocol.RangeOf(step.m), step.m.body);
    }
  }

  lemma RunSnoc(cfg: Protocol.Config, steps: seq<Protocol.Step>, step: Protocol.Step)
    ensures Protocol.Run(cfg, steps + [step]) == Protocol.Apply(cfg, Protocol.Run(cfg, steps), step)
  {
    assert (steps + [step])[..|steps|] == steps;
  }

  lemma {:induction false} RunIsUniform(cfg: Protocol.Config, steps: seq<Protocol.Step>)
    ensures Uploads.Uniform(Protocol.Run(cfg, steps).upload.chunks, cfg.limit)
  {
    if steps != [] {
      RunIsUniform(cfg, steps[..|steps| - 1]);
      StepGrows(cfg, Protocol.Run(cfg, steps[..|steps| - 1]), steps[|steps| - 1]);
      hide Uploads.Uniform;
    }
  }

  /** One session takes one step of module Protocol. */
  lemma ActKeeps(terms: Terms, sessions: map<string, Protocol.World>,
                 runs: map<string, seq<Protocol.Step>>, spoiled: set<string>, l: string, step: Protocol.Step)
    requires SessionsTrue(terms, sessions, runs, spoiled) && l in sessions
    ensures var sessions' := sessions[l := Protocol.Apply(ConfigOf(terms, l), sessions[l], step)];
            var runs' := if l in runs then runs[l := runs[l] + [step]] else runs;
            SessionsTrue(terms, sessions', runs', spoiled) && SessionsGrow(sessions, sessions')
  {
    hide Uploads.Uniform, Protocol.Apply, Protocol.Run;
    StepGrows(ConfigOf(terms, l), sessions[l], step);
    if l in runs { RunSnoc(ConfigOf(terms, l), runs[l], step); }
    ActKeepsParts(terms, sessions, runs, spoiled, l, step);
    ActKeepsRuns(terms, sessions, runs, spoiled, l, step);
  }

  lemma ActKeepsParts(terms: Terms, sessions: map<string, Protocol.World>,
                      runs: map<string, seq<Protocol.Step>>, spoiled: set<string>, l: string, step: Protocol.Step)
    requires SessionsTrue(terms, sessions, runs, spoiled) && l in sessions
    ensures var sessions' := sessions[l := Protocol.Apply(ConfigOf(terms, l), sessions[l], step)];
      forall k :: k in sessions' ==> Uploads.Uniform(sessions'[k].upload.chunks, terms.limit)
  {
    hide Uploads.Uniform, Protocol.Apply, Protocol.Run;
    StepGrows(ConfigOf(terms, l), sessions[l], step);
  }

  lemma ActKeepsRuns(terms: Terms, sessions: map<string, Protocol.World>,
                     runs: map<string, seq<Protocol.Step>>, spoiled: set<string>, l: string, step: Protocol.Step)
    requires l in sessions
    requires forall k :: k in sessions && k !in spoiled ==> IsRun(terms, sessions, runs, k)
    ensures var sessions' := sessions[l := Protocol.Apply(ConfigOf(terms, l), sessions[l], step)];
            var runs' := if l in runs then runs[l := runs[l] + [step]] else runs;
      forall k :: k in sessions' && k !in spoiled ==> IsRun(terms, sessions', runs', k)
  {
    hide Protocol.Apply, Protocol.Run;
    if l in runs { RunSnoc(ConfigOf(terms, l), runs[l], step); }
  }

  /** A header that is text is refused exactly when the range it stands for is. */
  lemma TextIsRange(u: Uploads.Upload, expired: bool, limit: nat, m: Protocol.Message, header: Option<string>)
    requires HeaderOf(m, header) && limit < 0x1_0000_0000 && Uploads.Uniform(u.chunks, limit)
    ensures var range := if header.None? then Uploads.Absent else ParseContentRange(header.value);
      && (Uploads.PatchRefusal(u, expired, limit, range, m.body).None?
          <==> Uploads.PatchRefusal(u, expired, limit, Protocol.RangeOf(m), m.body).None?)
      && (Uploads.PutRefusal(u, expired, limit, range, m.body).None?
          <==> Uploads.PutRefusal(u, expired, limit, Protocol.RangeOf(m), m.body).None?)
  {
    hide Pair, ParseContentRange, Uploads.Uniform, Uploads.SizeRefusal;
    Uploads.OffsetsFit(u.chunks, limit);
    if m.start + |m.body| <= MAX_I64 {
      HeaderReadsBack(m, header);
    } else if m.body != [] {
      StartReadsBack(m.start, m.start + |m.body| - 1);
    }
  }

  lemma TextOfSession(terms: Terms, sessions: map<string, Protocol.World>,
                      runs: map<string, seq<Protocol.Step>>, spoiled: set<string>, l: string, m: Protocol.Message,
                      header: Option<string>)
    requires SessionsTrue(terms, sessions, runs, spoiled) && l in sessions && HeaderOf(m, header)
    ensures var u := sessions[l].upload;
            var range := if header.None? then Uploads.Absent else ParseContentRange(header.value);
      forall expired ::
        && (Uploads.PatchRefusal(u, expired, terms.limit, range, m.body).None?
            <==> Uploads.PatchRefusal(u, expired, terms.limit, Protocol.RangeOf(m), m.body).None?)
        && (Uploads.PutRefusal(u, expired, terms.limit, range, m.body).None?
            <==> Uploads.PutRefusal(u, expired, terms.limit, Protocol.RangeOf(m), m.body).None?)
  {
    hide Uploads.PatchRefusal, Uploads.PutRefusal, ParseContentRange, HeaderOf, Uploads.Uniform, Protocol.Run;
    forall expired {
      TextIsRange(sessions[l].upload, expired, terms.limit, m, header);
    }
  }

  /** A session that opens is at the start of its run. */
  lemma OpenKeeps(terms: Terms, sessions: map<string, Protocol.World>,
                  runs: map<string, seq<Protocol.Step>>, spoiled: set<string>, l: string)
    requires SessionsTrue(terms, sessions, runs, spoiled) && l !in sessions
    ensures SessionsTrue(terms, sessions[l := Protocol.INITIAL], runs[l := []], spoiled)
    ensures SessionsGrow(sessions, sessions[l := Protocol.INITIAL])
  {
  }

  lemma StartedTruly(sessions: map<string, Protocol.World>, location: string, handled: Reply, reply: Reply)
    requires reply == handled || !reply.Response? || !IsSuccess(reply.status)
    requires handled.Response?
    requires IsSuccess(handled.status) ==>
      location in sessions && handled.location == Some(location) && 0 in sessions[location].acks
    ensures EventTrue(sessions, Started(reply))
  {
  }

  /** The client reads back what a session writes. */
  lemma OpenSessionReports(terms: Terms, sessions: map<string, Protocol.World>,
                           runs: map<string, seq<Protocol.Step>>, spoiled: set<string>, l: string)
    requires SessionsTrue(terms, sessions, runs, spoiled) && l in sessions
    ensures var offset := Uploads.Offset(sessions[l].upload);
      && StatusOffset(RangeHeader(offset)) == Some(offset)
      && (offset > 0 ==> RangeHeader(offset).Some? && ParseRangeOffset(RangeHeader(offset).value) == Some(offset))
  {
    hide StatusOffset, ParseRangeOffset, Uploads.Uniform, Protocol.Run;
    Uploads.OffsetsFit(sessions[l].upload.chunks, terms.limit);
    RangeRoundTrip(Uploads.Offset(sessions[l].upload));
  }

  lemma ReportsItsOffset(cfg: Protocol.Config, w: Protocol.World)
    requires w.upload.status.Uploading?
    ensures var w' := Protocol.Apply(cfg, w, Protocol.ReportStatus);
      w'.upload == w.upload && Uploads.Offset(w.upload) in w'.acks
  {
  }

  /** A status reply that is a success is the handler's, and says what the session has reported. */
  lemma AskedTruly(sessions: map<string, Protocol.World>, location: string, handled: Reply, reply: Reply)
    requires reply == handled || !reply.Response? || !IsSuccess(reply.status)
    requires handled.Response?
    requires IsSuccess(handled.status) ==>
      && location in sessions && handled.location == Some(location)
      && StatusOffset(handled.range).Some? && StatusOffset(handled.range).value in sessions[location].acks
    ensures EventTrue(sessions, Asked(location, reply))
    ensures reply.Response? && IsSuccess(reply.status) ==> reply.location == Some(location)
  {
    hide StatusOffset;
  }

  /** A completion that tells success has committed and linked the digest. */
  lemma FinishTellsTruth(env: Env, s: State, target: Target, key: Key, bytes: Bytes, digest: Digest, stop: Stop)
    requires StateTrue(env, target, s) && FreshKey(s.t, key)
    ensures var s' := Registry.Apply(env, s, FinishUpload(target.repo, key, bytes, digest, stop));
      var ok := CompleteUntil(env.codec.hash, s.t, target.repo, key, bytes, digest, stop).1;
      && (ok ==> (target.repo, digest) in s'.t.links && IsLive(s'.t, digest))
      && (ok ==> env.codec.hash(bytes) == digest)
      && (stop.Never? && env.codec.hash(bytes) == digest ==> ok)
  {
    CompletionKeeps(env.codec.hash, s.t, target.repo, key, bytes, digest, stop);
    hide CompleteUntil, Consistent, Keeps, FreshKey;
  }

  lemma InSessions(sessions: map<string, Protocol.World>, sessions': map<string, Protocol.World>, l: string)
    requires SessionsGrow(sessions, sessions') && l in sessions
    ensures l in sessions' && sessions[l].acks <= sessions'[l].acks && sessions[l].pool <= sessions'[l].pool
  {
  }

  /** A PATCH that arrives is taken as the protocol says, and then the new offset is reported. */
  lemma TakesPatch(terms: Terms, sessions: map<string, Protocol.World>,
                   runs: map<string, seq<Protocol.Step>>, spoiled: set<string>, l: string, m: Protocol.Message,
                   header: string, expired: bool, fails: bool)
    requires SessionsTrue(terms, sessions, runs, spoiled) && l in sessions
    requires m.PatchMessage? && HeaderOf(m, Some(header)) && m in sessions[l].pool
    ensures var w' := Protocol.Apply(ConfigOf(terms, l), sessions[l], Protocol.Deliver(m, expired, fails));
      !fails
      && Uploads.PatchRefusal(sessions[l].upload, expired, terms.limit, ParseContentRange(header), m.body).None? ==>
        && Uploads.Offset(w'.upload) > 0 && Uploads.Offset(w'.upload) in w'.acks
        && !expired && sessions[l].upload.status.Uploading?
        && w'.upload.chunks == sessions[l].upload.chunks + [m.body]
        && Uploads.Offset(w'.upload) == |Flat(sessions[l].upload.chunks)| + |m.body|
  {
    var u := sessions[l].upload;
    TextIsRange(u, expired, terms.limit, m, Some(header));
    FlatSnoc(u.chunks, m.body);
    hide ParseContentRange, Uploads.Uniform, Protocol.Run;
  }

  lemma TakesPut(terms: Terms, sessions: map<string, Protocol.World>,
                 runs: map<string, seq<Protocol.Step>>, spoiled: set<string>, l: string, m: Protocol.Message,
                 header: Option<string>, expired: bool)
    requires SessionsTrue(terms, sessions, runs, spoiled) && l in sessions
    requires m.PutMessage? && HeaderOf(m, header) && m in sessions[l].pool
    ensures var u := sessions[l].upload;
            var range := if header.None? then Uploads.Absent else ParseContentRange(header.value);
            var w' := Protocol.Apply(ConfigOf(terms, l), sessions[l], Protocol.Deliver(m, expired, false));
      if Uploads.PutRefusal(u, expired, terms.limit, range, m.body).None?
      then w'.upload == Uploads.Upload(Uploads.WithTail(u.chunks, m.body), Uploads.Finalizing)
           && Flat(w'.upload.chunks) == Flat(u.chunks) + m.body && u.status.Uploading? && !expired
      else w'.upload == u
  {
    FlatSnoc(sessions[l].upload.chunks, m.body);
    TextIsRange(sessions[l].upload, expired, terms.limit, m, header);
    hide ParseContentRange, Uploads.Uniform, Protocol.Run, Uploads.PutRefusal;
  }

  lemma PatchedTruly(sessions: map<string, Protocol.World>, location: string, m: Protocol.Message, handled: Reply,
                     reply: Reply)
    requires location in sessions && m in sessions[location].pool
    requires reply == handled || !reply.Response? || !IsSuccess(reply.status)
    requires handled.Response?
    requires IsSuccess(handled.status) ==>
      && handled.location == Some(location) && handled.range.Some?
      && ParseRangeOffset(handled.range.value).Some?
      && ParseRangeOffset(handled.range.value).value in sessions[location].acks
    ensures EventTrue(sessions, Patched(location, m, reply))
    ensures reply.Response? && IsSuccess(reply.status) ==> reply.location == Some(location)
  {
    hide ParseRangeOffset;
  }

  lemma SessionsGrowAlways()
    ensures forall a :: SessionsGrow(a, a)
    ensures forall a, b, c :: SessionsGrow(a, b) && SessionsGrow(b, c) ==> SessionsGrow(a, c)
  {
  }

  lemma OneMoreEvent(sessions: map<string, Protocol.World>, trace: seq<Event>, e: Event)
    requires TraceTrue(sessions, trace) && EventTrue(sessions, e)
    ensures TraceTrue(sessions, trace + [e])
  {
    hide EventTrue;
  }
}
