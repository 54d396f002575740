/**
 The registry as one client sees it while it pushes: every call may be lost on the way there or
 back, or be answered by something in between; other clients' requests run before it. Upload
 sessions are those of module Protocol, and answer from their accepted offset. What the client
 sends and what the sessions answer is recorded.
 */
module Network {
  import opened Common
  import opened Digests
  import opened Storage
  import opened BlobTables
  import opened Manifests
  import opened Registry
  import opened Ranges
  import opened Wire
  import Protocol
  import Uploads

  class Remote {
    const env: Env
    const target: Target
    const plan: nat -> Weather
    /** What each session is for: the blob everybody else who uses it uploads. */
    const purpose: string -> Bytes
    /** The server's limit on the size of one chunk. */
    const limit: nat
    var clock: nat
    var state: State
    var sessions: map<string, Protocol.World>
    ghost var runs: map<string, seq<Protocol.Step>>
    /** Sessions this client has sent something it should not have. */
    ghost var spoiled: set<string>
    ghost var trace: seq<Event>
    ghost var pushes: seq<Push>
    ghost var troubles: Troubles
    /** The replies to HEADs, each with the length of the record when it came. */
    ghost var looks: set<(nat, Reply)>

    function Shared(): Terms {
      Terms(purpose, limit, env.codec.hash)
    }

    function Cfg(location: string): Protocol.Config {
      ConfigOf(Shared(), location)
    }

    ghost predicate Valid()
      reads this
    {
      RemoteTrue(env, target, Shared(), state, sessions, runs, spoiled, trace)
    }

    /** The sessions that are open have each come as far as their run. */
    constructor (env: Env, target: Target, plan: nat -> Weather, purpose: string -> Bytes, limit: nat, state: State,
                 runs: map<string, seq<Protocol.Step>>)
      requires StateTrue(env, target, state) && limit < 0x1_0000_0000
      ensures Valid() && this.env == env && this.target == target && this.state == state && trace == [] && pushes == []
      ensures this.purpose == purpose && this.limit == limit && this.runs == runs && spoiled == {}
      ensures this.plan == plan && clock == 0 && troubles == NO_TROUBLE
    {
      this.env := env;
      this.target := target;
      this.plan := plan;
      this.purpose := purpose;
      this.limit := limit;
      this.state := state;
      sessions := map l | l in runs ::
        Protocol.Run(Protocol.Config(purpose(l), CHUNK_SIZE, limit, env.codec.hash), runs[l]);
      this.runs := runs;
      spoiled := {};
      clock := 0;
      trace := [];
      pushes := [];
      troubles := NO_TROUBLE;
      looks := {};
      new;
      hide StateTrue;
      forall l | l in sessions
        ensures Uploads.Uniform(sessions[l].upload.chunks, limit)
      {
        RunIsUniform(Cfg(l), runs[l]);
      }
    }

    /** Committed and linked in the target repository. */
    predicate HasBlob(digest: Digest)
      reads this
    {
      (target.repo, digest) in state.t.links && IsLive(state.t, digest)
    }

    /** The session is open to this message and would take it. */
    predicate Takes(location: string, m: Protocol.Message)
      reads this
    {
      location in sessions
      && var u := sessions[location].upload;
         if m.PatchMessage? then Uploads.PatchRefusal(u, false, limit, Protocol.RangeOf(m), m.body).None?
         else Uploads.PutRefusal(u, false, limit, Protocol.RangeOf(m), m.body).None?
    }

    /** One session takes one step. */
    method Act(location: string, step: Protocol.Step)
      requires Valid() && location in sessions
      modifies this`sessions, this`runs
      ensures Valid() && SessionsGrow(old(sessions), sessions)
      ensures sessions == old(sessions)[location := Protocol.Apply(Cfg(location), old(sessions)[location], step)]
    {
      hide StateTrue, SessionsTrue, TraceTrue, SessionsGrow;
      ActKeeps(Shared(), sessions, runs, spoiled, location, step);
      ghost var before := sessions;
      runs := if location in runs then runs[location := runs[location] + [step]] else runs;
      sessions := sessions[location := Protocol.Apply(Cfg(location), sessions[location], step)];
      TraceStaysTrue(before, sessions, trace);
    }

    /** A message of this client goes out. If the protocol does not allow it, the session is spoiled. */
    method Send(location: string, m: Protocol.Message)
      requires Valid() && location in sessions
      modifies this`sessions, this`runs, this`spoiled
      ensures Valid() && SessionsGrow(old(sessions), sessions)
      ensures m in sessions[location].pool && sessions[location].upload == old(sessions)[location].upload
      ensures spoiled == if Protocol.Allowed(purpose(location), CHUNK_SIZE, old(sessions)[location].acks, m)
                         then old(spoiled) else old(spoiled) + {location}
    {
      hide StateTrue, TraceTrue, Protocol.Allowed, Uploads.Uniform;
      ghost var before := sessions;
      if Protocol.Allowed(purpose(location), CHUNK_SIZE, sessions[location].acks, m) {
        Act(location, Protocol.Send(m));
      } else {
        sessions := sessions[location := sessions[location].(pool := sessions[location].pool + {m})];
        spoiled := spoiled + {location};
        TraceStaysTrue(before, sessions, trace);
      }
    }

    /** Time passes: other clients are served. */
    method Pass() returns (w: Weather)
      requires Valid()
      modifies this`clock, this`state, this`sessions, this`runs
      ensures Valid() && Grows(old(state), state, target) && SessionsGrow(old(sessions), sessions)
      ensures w == plan(old(clock)) && clock == old(clock) + 1
      ensures w.others == [] ==> state == old(state)
      ensures w.steps == [] ==> sessions == old(sessions)
    {
      hide StateTrue, SessionsTrue, TraceTrue, Grows, SessionsGrow;
      GrowsAlways(target);
      w := plan(clock);
      clock := clock + 1;
      ServeOthers(w.others);
      MoveSessions(w.steps);
    }

    method ServeOthers(others: seq<Request>)
      requires Valid()
      modifies this`state
      ensures Valid() && Grows(old(state), state, target)
      ensures others == [] ==> state == old(state)
    {
      hide StateTrue, SessionsTrue, TraceTrue, Grows, Harmless, Registry.Apply;
      GrowsAlways(target);
      for i := 0 to |others|
        invariant Valid() && Grows(old(state), state, target)
        invariant i == 0 ==> state == old(state)
      {
        if Harmless(env, others[i], target) {
          HarmlessGrows(env, state, others[i], target);
          state := Registry.Apply(env, state, others[i]);
        }
      }
    }

    method MoveSessions(steps: seq<(string, Protocol.Step)>)
      requires Valid()
      modifies this`sessions, this`runs
      ensures Valid() && SessionsGrow(old(sessions), sessions)
      ensures steps == [] ==> sessions == old(sessions)
    {
      hide StateTrue, SessionsTrue, TraceTrue, SessionsGrow, Protocol.Apply;
      SessionsGrowAlways();
      for i := 0 to |steps|
        invariant Valid() && SessionsGrow(old(sessions), sessions)
        invariant i == 0 ==> sessions == old(sessions)
      {
        if steps[i].0 in sessions { Act(steps[i].0, steps[i].1); }
      }
    }

    method RefreshToken() returns (ok: bool)
      requires Valid()
      modifies this`clock, this`state, this`sessions, this`runs, this`troubles
      ensures Valid() && Grows(old(state), state, target) && SessionsGrow(old(sessions), sessions)
      ensures troubles == if ok then old(troubles) else old(troubles).(refused := old(troubles).refused + 1)
      ensures Clear(plan(old(clock))) ==> ok
    {
      var w := Pass();
      if !w.reaches { troubles := troubles.(refused := troubles.refused + 1); }
      return w.reaches;
    }

    method HeadBlob(digest: Digest) returns (reply: Reply)
      requires Valid()
      modifies this`clock, this`state, this`sessions, this`runs, this`troubles, this`looks
      ensures Valid() && Grows(old(state), state, target) && SessionsGrow(old(sessions), sessions)
      ensures reply.Response? && IsSuccess(reply.status) ==> HasBlob(digest)
      ensures looks == old(looks) + {(|trace|, reply)}
      ensures troubles == old(troubles).(head := Counted(old(troubles).head, reply, Told(reply)))
      ensures Clear(plan(old(clock))) ==>
                state == old(state) && reply == Response(if old(HasBlob(digest)) then OK else NOT_FOUND, None, None)
    {
      hide StateTrue, SessionsTrue, TraceTrue, Grows, SessionsGrow;
      var w := Pass();
      reply := Seen(w, Response(if HasBlob(digest) then OK else NOT_FOUND, None, None));
      troubles := troubles.(head := Counted(troubles.head, reply, Told(reply)));
      looks := looks + {(|trace|, reply)};
    }

    /** A new session, at an address no other has. */
    method PostUpload() returns (reply: Reply)
      requires Valid()
      modifies this`clock, this`state, this`sessions, this`runs, this`trace, this`troubles
      ensures Valid() && Grows(old(state), state, target) && SessionsGrow(old(sessions), sessions)
      ensures trace == old(trace) + [Started(reply)]
      ensures troubles == old(troubles).(post := Counted(old(troubles).post, reply, Opened(reply)))
      ensures var w := plan(old(clock));
        Clear(w) && w.location !in old(sessions) ==>
          && reply == Response(ACCEPTED, Some(w.location), None)
          && state == old(state) && sessions == old(sessions)[w.location := Protocol.INITIAL]
    {
      hide StateTrue, SessionsTrue, TraceTrue, Grows, SessionsGrow;
      SessionsGrowAlways();
      var w := Pass();
      ghost var before := sessions;
      var handled := Response(SERVER_ERROR, None, None);
      if w.reaches && !w.fails && w.location !in sessions {
        OpenKeeps(Shared(), sessions, runs, spoiled, w.location);
        sessions := sessions[w.location := Protocol.INITIAL];
        runs := runs[w.location := []];
        handled := Response(ACCEPTED, Some(w.location), None);
      }
      reply := Seen(w, handled);
      StartedTruly(sessions, w.location, handled, reply);
      TraceStaysTrue(before, sessions, trace);
      OneMoreEvent(sessions, trace, Started(reply));
      trace := trace + [Started(reply)];
      troubles := troubles.(post := Counted(troubles.post, reply, Opened(reply)));
    }

    /** The status of a session: its accepted offset. */
    method GetUpload(location: string) returns (reply: Reply)
      requires Valid()
      modifies this`clock, this`state, this`sessions, this`runs, this`trace, this`troubles
      ensures Valid() && Grows(old(state), state, target) && SessionsGrow(old(sessions), sessions)
      ensures trace == old(trace) + [Asked(location, reply)]
      ensures troubles == old(troubles).(get := Counted(old(troubles).get, reply, Answered(reply)))
      ensures reply.Response? && IsSuccess(reply.status) ==>
        !plan(old(clock)).expired && location in sessions && sessions[location].upload.status.Uploading?
        && StatusOffset(reply.range) == Some(|Flat(sessions[location].upload.chunks)|)
      ensures Clear(plan(old(clock))) && location in old(sessions) ==>
        var u := old(sessions)[location].upload;
        u.status.Uploading? ==> reply.Response? && IsSuccess(reply.status) && sessions[location].upload == u
      ensures reply.Response? && IsSuccess(reply.status) ==> reply.location == Some(location)
    {
      hide StateTrue, SessionsTrue, TraceTrue, Grows, SessionsGrow, StatusOffset, RangeHeader, Protocol.Apply;
      SessionsGrowAlways();
      var w := Pass();
      var handled := Response(NOT_FOUND, None, None);
      if w.reaches && location in sessions && sessions[location].upload.status.Uploading? && !w.expired {
        ReportsItsOffset(Cfg(location), sessions[location]);
        Act(location, Protocol.ReportStatus);
        handled := Response(NO_CONTENT, Some(location), RangeHeader(Uploads.Offset(sessions[location].upload)));
        OpenSessionReports(Shared(), sessions, runs, spoiled, location);
      }
      reply := Seen(w, handled);
      AskedTruly(sessions, location, handled, reply);
      OneMoreEvent(sessions, trace, Asked(location, reply));
      trace := trace + [Asked(location, reply)];
      troubles := troubles.(get := Counted(troubles.get, reply, Answered(reply)));
    }

    /** A PATCH arrives, and the session takes it or refuses it. */
    method HandlePatch(location: string, header: string, m: Protocol.Message, expired: bool, fails: bool)
        returns (handled: Reply)
      requires Valid() && location in sessions && m in sessions[location].pool
      requires m.PatchMessage? && HeaderOf(m, Some(header))
      modifies this`sessions, this`runs
      ensures Valid() && SessionsGrow(old(sessions), sessions)
      ensures location in sessions && m in sessions[location].pool
      ensures handled.Response? && (IsSuccess(handled.status) ==> handled.status == ACCEPTED)
      ensures IsSuccess(handled.status) <==>
        !fails
        && Uploads.PatchRefusal(old(sessions)[location].upload, expired, limit, ParseContentRange(header), m.body).None?
      ensures IsSuccess(handled.status) ==>
        && handled.location == Some(location) && handled.range == RangeHeader(Uploads.Offset(sessions[location].upload))
        && handled.range.Some? && ParseRangeOffset(handled.range.value).Some?
        && ParseRangeOffset(handled.range.value).value in sessions[location].acks
      ensures IsSuccess(handled.status) ==>
        && !expired && old(sessions)[location].upload.status.Uploading?
        && sessions[location].upload.chunks == old(sessions)[location].upload.chunks + [m.body]
        && ParseRangeOffset(handled.range.value).value
           == |Flat(old(sessions)[location].upload.chunks)| + |m.body|
    {
      hide Flat, StateTrue, SessionsTrue, TraceTrue, SessionsGrow, Protocol.Apply, Uploads.PatchRefusal,
            ParseContentRange;
      var refusal := Uploads.PatchRefusal(sessions[location].upload, expired, limit, ParseContentRange(header), m.body);
      TakesPatch(Shared(), sessions, runs, spoiled, location, m, header, expired, fails);
      ghost var before := sessions;
      Act(location, Protocol.Deliver(m, expired, fails));
      InSessions(before, sessions, location);
      if refusal.Some? {
        return Response(SessionStatus(refusal.value), None, None);
      }
      if fails { return Response(SERVER_ERROR, None, None); }
      OpenSessionReports(Shared(), sessions, runs, spoiled, location);
      return Response(ACCEPTED, Some(location), RangeHeader(Uploads.Offset(sessions[location].upload)));
    }

    /** A PATCH: it goes out, and if it arrives now, the session answers. */
    method PatchUpload(location: string, header: string, m: Protocol.Message) returns (reply: Reply)
      requires Valid() && location in sessions
      requires m.PatchMessage? && HeaderOf(m, Some(header))
      modifies this`clock, this`state, this`sessions, this`runs, this`spoiled, this`trace, this`troubles
      ensures Valid() && Grows(old(state), state, target) && SessionsGrow(old(sessions), sessions)
      ensures trace == old(trace) + [Patched(location, m, reply)]
      ensures troubles == old(troubles).(patch := Counted(old(troubles).patch, reply, Accepted(reply)))
      ensures Clear(plan(old(clock))) && old(Takes(location, m)) ==>
        && Accepted(reply) && location in sessions
        && sessions[location].upload.chunks == old(sessions)[location].upload.chunks + [m.body]
        && ParseRangeOffset(reply.range.value).value == |Flat(old(sessions)[location].upload.chunks)| + |m.body|
      ensures reply.Response? && reply.status == ACCEPTED ==> reply.location == Some(location)
      ensures spoiled == old(spoiled) || spoiled == old(spoiled) + {location}
      ensures Protocol.Allowed(purpose(location), CHUNK_SIZE, old(sessions)[location].acks, m) ==>
                spoiled == old(spoiled)
    {
      hide StateTrue, SessionsTrue, TraceTrue, Grows, SessionsGrow, Protocol.Apply, Uploads.PatchRefusal, HeaderOf,
            RangeHeader, ParseRangeOffset, ParseContentRange, Uploads.Uniform, Flat;
      SessionsGrowAlways();
      ghost var before := sessions;
      TextOfSession(Shared(), sessions, runs, spoiled, location, m, Some(header));
      var w := Pass();
      InSessions(before, sessions, location);
      before := sessions;
      Send(location, m);
      InSessions(before, sessions, location);
      var handled := Response(SERVER_ERROR, None, None);
      if w.reaches {
        handled := HandlePatch(location, header, m, w.expired, w.fails);
      }
      reply := Seen(w, handled);
      PatchedTruly(sessions, location, m, handled, reply);
      OneMoreEvent(sessions, trace, Patched(location, m, reply));
      trace := trace + [Patched(location, m, reply)];
      troubles := troubles.(patch := Counted(troubles.patch, reply, Accepted(reply)));
    }

    /** The completion of a session whose PUT was taken: its object, the tables, its status. */
    method Complete(location: string, digest: Digest, key: Key, stop: Stop) returns (ok: bool)
      requires Valid() && location in sessions && sessions[location].upload.status.Finalizing?
      modifies this`state, this`sessions, this`runs
      ensures Valid() && Grows(old(state), state, target) && SessionsGrow(old(sessions), sessions)
      ensures ok ==> HasBlob(digest)
      ensures var bytes := Flat(old(sessions)[location].upload.chunks);
        && (ok ==> env.codec.hash(bytes) == digest)
        && (stop.Never? && FreshKey(old(state).t, key) && NoClash(env.codec.hash, target.files, bytes) ==>
              (ok <==> env.codec.hash(bytes) == digest))
    {
      hide StateTrue, SessionsTrue, TraceTrue, Grows, SessionsGrow, Protocol.Apply, Consistent, NoClash, Flat, FreshKey;
      GrowsAlways(target);
      SessionsGrowAlways();
      var bytes := Flat(sessions[location].upload.chunks);
      var finish := FinishUpload(target.repo, key, bytes, digest, stop);
      if !FreshKey(state.t, key) || !Harmless(env, finish, target) { return false; }
      ok := CompleteUntil(env.codec.hash, state.t, target.repo, key, bytes, digest, stop).1;
      FinishTellsTruth(env, state, target, key, bytes, digest, stop);
      HarmlessGrows(env, state, finish, target);
      state := Registry.Apply(env, state, finish);
      hide Registry.Apply, CompleteUntil;
      ghost var before := sessions;
      Act(location, Protocol.Assemble);
      InSessions(before, sessions, location);
      if env.codec.hash(bytes) != digest {
        // mark_upload_failed
        Act(location, Protocol.Expire);
      } else if stop in {AtDelete, Never} {
        Act(location, Protocol.Commit);
      }
    }

    /** A final PUT arrives. If the session takes it, its completion runs. */
    method HandlePut(location: string, header: Option<string>, m: Protocol.Message, digest: Digest, w: Weather)
        returns (handled: Reply)
      requires Valid() && location in sessions && m in sessions[location].pool
      requires m.PutMessage? && HeaderOf(m, header)
      modifies this`state, this`sessions, this`runs
      ensures Valid() && Grows(old(state), state, target) && SessionsGrow(old(sessions), sessions)
      ensures location in sessions && m in sessions[location].pool
      ensures handled.Response? && (IsSuccess(handled.status) ==> handled.status == CREATED && HasBlob(digest))
      ensures var u := old(sessions)[location].upload;
              var bytes := Flat(u.chunks) + m.body;
        && (IsSuccess(handled.status) ==>
              u.status.Uploading? && !w.expired && env.codec.hash(bytes) == digest)
        && (!w.expired && !w.fails && w.stop.Never? && old(Takes(location, m)) && FreshKey(old(state).t, w.key)
            && NoClash(env.codec.hash, target.files, bytes) ==>
              (IsSuccess(handled.status) <==> env.codec.hash(bytes) == digest))
    {
      hide StateTrue, SessionsTrue, TraceTrue, Grows, SessionsGrow, Protocol.Apply, Uploads.PutRefusal, HeaderOf,
            ParseContentRange, NoClash, FreshKey, Flat;
      GrowsAlways(target);
      SessionsGrowAlways();
      var range := if header.None? then Uploads.Absent else ParseContentRange(header.value);
      var refusal := Uploads.PutRefusal(sessions[location].upload, w.expired, limit, range, m.body);
      TextOfSession(Shared(), sessions, runs, spoiled, location, m, header);
      TakesPut(Shared(), sessions, runs, spoiled, location, m, header, w.expired);
      ghost var before := sessions;
      Act(location, Protocol.Deliver(m, w.expired, w.fails));
      InSessions(before, sessions, location);
      if refusal.Some? { return Response(SessionStatus(refusal.value), None, None); }
      if w.fails { return Response(SERVER_ERROR, None, None); }
      before := sessions;
      var ok := Complete(location, digest, w.key, w.stop);
      InSessions(before, sessions, location);
      return Response(if ok then CREATED else SERVER_ERROR, None, None);
    }

    /** A final PUT: it goes out, and if it arrives now, the session answers. */
    method PutUpload(location: string, header: Option<string>, m: Protocol.Message, digest: Digest)
        returns (reply: Reply)
      requires Valid() && location in sessions
      requires m.PutMessage? && HeaderOf(m, header)
      modifies this`clock, this`state, this`sessions, this`runs, this`spoiled, this`trace, this`troubles
      ensures Valid() && Grows(old(state), state, target) && SessionsGrow(old(sessions), sessions)
      ensures troubles == old(troubles).(put := Counted(old(troubles).put, reply, Created(reply)))
      ensures reply.Response? && IsSuccess(reply.status) ==> HasBlob(digest)
      ensures trace == old(trace) + [Completed(location, m, digest, reply)]
      ensures spoiled == old(spoiled) || spoiled == old(spoiled) + {location}
      ensures Protocol.Allowed(purpose(location), CHUNK_SIZE, old(sessions)[location].acks, m) ==>
                spoiled == old(spoiled)
      ensures var w := plan(old(clock));
              var bytes := Flat(old(sessions)[location].upload.chunks) + m.body;
        Clear(w) && w.stop.Never? && old(Takes(location, m)) && FreshKey(old(state).t, w.key)
        && NoClash(env.codec.hash, target.files, bytes) ==>
          (Created(reply) <==> env.codec.hash(bytes) == digest)
    {
      hide StateTrue, SessionsTrue, TraceTrue, Grows, SessionsGrow, Protocol.Apply, Uploads.PutRefusal, HeaderOf,
            NoClash, FreshKey, Flat, Protocol.CutFrom;
      GrowsAlways(target);
      SessionsGrowAlways();
      ghost var before := sessions;
      var w := Pass();
      InSessions(before, sessions, location);
      before := sessions;
      Send(location, m);
      InSessions(before, sessions, location);
      var handled := Response(SERVER_ERROR, None, None);
      if w.reaches {
        before := sessions;
        handled := HandlePut(location, header, m, digest, w);
        InSessions(before, sessions, location);
      }
      reply := Seen(w, handled);
      OneMoreEvent(sessions, trace, Completed(location, m, digest, reply));
      trace := trace + [Completed(location, m, digest, reply)];
      troubles := troubles.(put := Counted(troubles.put, reply, Created(reply)));
    }

    /** The PUT of a manifest. `at` is the state in which the handler runs, if it does. */
    method PutManifest(reference: string, mediaType: string, bytes: Bytes) returns (reply: Reply, ghost at: State)
      requires Valid()
      requires reference == target.reference ==> env.codec.hash(bytes) == target.root
      modifies this`clock, this`state, this`sessions, this`runs, this`pushes, this`troubles
      ensures Valid() && Grows(old(state), state, target) && SessionsGrow(old(sessions), sessions)
      ensures Grows(old(state), at, target) && StateTrue(env, target, at)
      ensures reply.Response? && IsSuccess(reply.status) ==>
        && (target.repo, env.codec.hash(bytes)) in state.db.live && env.codec.hash(bytes) in state.db.manifests
        && (Digests.Parse(reference).Err? ==>
            Lookup(state.db.tags, (target.repo, reference)) == Some(env.codec.hash(bytes)))
      ensures troubles == old(troubles).(manifest := Counted(old(troubles).manifest, reply, Created(reply)))
      ensures Clear(plan(old(clock))) ==>
                at == old(state) && |pushes| == |old(pushes)| + 1
                && (Created(reply) <==> pushes[|old(pushes)|].refusal.None?)
      ensures pushes == old(pushes)
              || pushes == old(pushes) + [Push(reference, bytes,
                                               PushRefusal(env, at, target.repo, reference, Some(mediaType), bytes))]
    {
      hide StateTrue, SessionsTrue, TraceTrue, Grows, SessionsGrow, Manifests.Parse, Digests.Parse, PushRefusal,
            Registry.PutManifest;
      GrowsAlways(target);
      var w := Pass();
      at := state;
      var handled := Response(SERVER_ERROR, None, None);
      if w.reaches {
        var push := PushManifest(target.repo, reference, Some(mediaType), bytes);
        var refusal := PushRefusal(env, state, target.repo, reference, Some(mediaType), bytes);
        PushGrows(env, state, target.repo, reference, Some(mediaType), bytes);
        HarmlessGrows(env, state, push, target);
        state := Registry.PutManifest(env, state, target.repo, reference, Some(mediaType), bytes);
        handled := Response(if refusal.None? then CREATED else StatusOf(refusal.value), None, None);
        pushes := pushes + [Push(reference, bytes, refusal)];
      }
      reply := Seen(w, handled);
      troubles := troubles.(manifest := Counted(troubles.manifest, reply, Created(reply)));
    }
  }
}
