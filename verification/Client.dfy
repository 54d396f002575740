/** The pushing client: uploads a blob in chunks, resumes, retries; then pushes the manifests. */
module Client {
  import opened Common
  import opened Digests
  import opened BlobTables
  import opened Registry
  import opened Ranges
  import opened Resume
  import opened Wire
  import opened Network
  import opened Manifests
  import opened Pushes
  import Protocol
  import Walk

  const MAX_ATTEMPTS: nat := 5

  datatype UploadPosition = UploadPosition(location: string, offset: nat)

  /** `upload_position`: a reply without a Location is an error. */
  function PositionOf(reply: Reply, offset: nat): Option<UploadPosition>
    requires reply.Response?
  {
    if reply.location.None? then None else Some(UploadPosition(reply.location.value, offset))
  }

  /** `read_exact`. */
  function ReadExact(file: Bytes, at: nat, length: nat): Option<Bytes> {
    if at + length <= |file| then Some(file[at..at + length]) else None
  }

  // ---------------------------------------------------------------- giving up

  /** Between the two, one reply was final, or five called for another attempt. */
  ghost predicate GaveUp(before: Tally, now: Tally) {
    before.fatal < now.fatal || before.hitches + MAX_ATTEMPTS <= now.hitches
  }

  /** A reason to fail: a token was refused, or calls of a kind that the upload cannot do without gave up. */
  ghost predicate Troubled(before: Troubles, now: Troubles) {
    || before.refused < now.refused
    || GaveUp(before.head, now.head) || GaveUp(before.post, now.post)
    || GaveUp(before.patch, now.patch) || GaveUp(before.put, now.put) || GaveUp(before.manifest, now.manifest)
  }

  ghost function HitchesMore(t: Tally, n: nat): Tally {
    t.(hitches := t.hitches + n)
  }

  ghost predicate TallyGrows(t: Tally, t': Tally) {
    t.hitches <= t'.hitches && t.fatal <= t'.fatal
  }

  ghost predicate TroublesGrow(t: Troubles, t': Troubles) {
    && TallyGrows(t.head, t'.head) && TallyGrows(t.post, t'.post) && TallyGrows(t.get, t'.get)
    && TallyGrows(t.patch, t'.patch) && TallyGrows(t.put, t'.put) && TallyGrows(t.manifest, t'.manifest)
    && t.refused <= t'.refused
  }

  lemma TroublesGrowAlways()
    ensures forall a :: TroublesGrow(a, a)
    ensures forall a, b, c :: TroublesGrow(a, b) && TroublesGrow(b, c) ==> TroublesGrow(a, c)
    ensures forall a, b, c :: TroublesGrow(a, b) && Troubled(b, c) ==> Troubled(a, c)
    ensures forall a, b, c :: Troubled(a, b) && TroublesGrow(b, c) ==> Troubled(a, c)
  {
  }

  /** What can trouble the sending of one chunk, and when that fails. */
  ghost predicate PatchTroubles(before: Troubles, now: Troubles, failed: bool) {
    && TroublesGrow(before, now)
    && now == before.(patch := now.patch, get := now.get, refused := now.refused)
    && (failed ==> GaveUp(before.patch, now.patch) || before.refused < now.refused)
  }

  /** After `n` attempts, each of which called for another. */
  ghost predicate PatchHitches(before: Troubles, now: Troubles, n: nat) {
    && TroublesGrow(before, now)
    && now == before.(patch := HitchesMore(before.patch, n), get := now.get, refused := now.refused)
  }

  lemma NoHitches(t: Troubles)
    ensures PatchHitches(t, t, 0)
  {
  }

  lemma PatchCounted(before: Troubles, was: Troubles, now: Troubles, n: nat, reply: Reply)
    requires PatchHitches(before, was, n) && now == was.(patch := Counted(was.patch, reply, Accepted(reply)))
    ensures PatchTroubles(before, now, !Accepted(reply) && !IsHitch(reply))
    ensures !Accepted(reply) && IsHitch(reply) ==> PatchHitches(before, now, n + 1)
  {
    hide ParseRangeOffset;
  }

  lemma AskedBetween(before: Troubles, was: Troubles, now: Troubles, n: nat)
    requires PatchHitches(before, was, n) && TroublesGrow(was, now)
    requires now == was.(get := now.get, refused := now.refused)
    ensures PatchHitches(before, now, n) && PatchTroubles(before, now, false)
    ensures was.refused < now.refused ==> PatchTroubles(before, now, true)
  {
  }

  lemma NoMoreAttempts(before: Troubles, now: Troubles)
    requires PatchHitches(before, now, MAX_ATTEMPTS)
    ensures PatchTroubles(before, now, true)
  {
  }

  /** The same for the final PUT, between the attempts of which the blob is looked for. */
  ghost predicate PutTroubles(before: Troubles, now: Troubles, failed: bool) {
    && TroublesGrow(before, now)
    && now == before.(put := now.put, head := now.head, refused := now.refused)
    && (failed ==> GaveUp(before.put, now.put) || before.refused < now.refused)
  }

  ghost predicate PutHitches(before: Troubles, now: Troubles, n: nat) {
    PutTroubles(before, now, n >= MAX_ATTEMPTS) && now.put == HitchesMore(before.put, n)
  }

  lemma NoPuts(t: Troubles)
    ensures PutHitches(t, t, 0)
  {
  }

  lemma PutCounted(before: Troubles, was: Troubles, now: Troubles, n: nat, reply: Reply)
    requires PutHitches(before, was, n) && now == was.(put := Counted(was.put, reply, Created(reply)))
    ensures PutTroubles(before, now, !Created(reply) && !IsHitch(reply))
    ensures !Created(reply) && IsHitch(reply) ==> PutHitches(before, now, n + 1)
  {
  }

  lemma NoMorePuts(before: Troubles, now: Troubles)
    requires PutHitches(before, now, MAX_ATTEMPTS)
    ensures PutTroubles(before, now, true)
  {
  }

  lemma ProbedBetween(before: Troubles, was: Troubles, now: Troubles, n: nat)
    requires TroublesGrow(was, now) && now == was.(head := now.head, refused := now.refused)
    ensures PutHitches(before, was, n) ==> PutHitches(before, now, n) && PutTroubles(before, now, false)
    ensures PutHitches(before, was, n) && was.refused < now.refused ==> PutTroubles(before, now, true)
    ensures PutTroubles(before, was, false) ==> PutTroubles(before, now, false)
    ensures PutTroubles(before, was, true) ==> PutTroubles(before, now, true) && PutTroubles(before, now, false)
  {
  }

  lemma PushIsTrouble(before: Troubles, now: Troubles, failed: bool)
    requires failed ==> GaveUp(before.manifest, now.manifest) || before.refused < now.refused
    ensures failed ==> Troubled(before, now)
  {
  }

  lemma StartIsTrouble(before: Troubles, now: Troubles, failed: bool)
    requires TroublesGrow(before, now) && (failed ==> GaveUp(before.post, now.post) || before.refused < now.refused)
    ensures failed ==> Troubled(before, now)
  {
  }

  lemma ExistsIsTrouble(before: Troubles, now: Troubles, failed: bool)
    requires TroublesGrow(before, now) && (failed ==> GaveUp(before.head, now.head) || before.refused < now.refused)
    ensures failed ==> Troubled(before, now)
  {
  }

  lemma PatchIsTrouble(before: Troubles, now: Troubles, failed: bool)
    requires PatchTroubles(before, now, failed)
    ensures TroublesGrow(before, now) && (failed ==> Troubled(before, now))
  {
  }

  lemma PutIsTrouble(before: Troubles, now: Troubles, failed: bool)
    requires PutTroubles(before, now, failed)
    ensures TroublesGrow(before, now) && (failed ==> Troubled(before, now))
  {
  }

  // ---------------------------------------------------------------- asking before trying again

  /** No answer, or one that calls for another attempt: the message may have arrived or not. */
  predicate IsUncertain(reply: Reply) {
    reply.Unreachable? || (reply.Response? && IsTransient(reply.status))
  }

  /** After each PATCH with such a reply, the next thing on record is a status query. */
  ghost predicate AsksAgain(trace: seq<Event>, from: nat) {
    forall i :: from <= i < |trace| && trace[i].Patched? && IsUncertain(trace[i].reply) ==>
      i + 1 < |trace| && trace[i + 1].Asked?
  }

  lemma AsksOn(before: seq<Event>, sent: seq<Event>, trace: seq<Event>, from: nat, location: string,
               m: Protocol.Message, reply: Reply)
    requires AsksAgain(before, from) && sent == before + [Patched(location, m, reply)]
    requires sent <= trace && OnlyAsked(trace, |sent|) && (IsUncertain(reply) ==> |sent| < |trace|)
    ensures AsksAgain(trace, from)
  {
    assert forall i :: 0 <= i < |before| ==> trace[i] == before[i];
    assert trace[|before|] == sent[|before|];
  }

  lemma NothingToAsk(before: seq<Event>, trace: seq<Event>, from: nat, location: string, m: Protocol.Message,
                     reply: Reply)
    requires AsksAgain(before, from) && trace == before + [Patched(location, m, reply)] && !IsUncertain(reply)
    ensures AsksAgain(trace, from)
  {
    AsksOn(before, trace, trace, from, location, m, reply);
  }

  /** When the record was this long, a HEAD of the blob was answered, and not with success. */
  ghost predicate LookedInVain(looks: set<(nat, Reply)>, at: nat) {
    exists reply :: (at, reply) in looks && !(reply.Response? && IsSuccess(reply.status))
  }

  /** Each PUT that was not told of success, nor to get a new token, was followed by a HEAD in vain. */
  ghost predicate LooksAgain(trace: seq<Event>, looks: set<(nat, Reply)>, from: nat) {
    forall i :: from <= i < |trace| && trace[i].Completed? && MayHaveLanded(trace[i].reply) ==>
      LookedInVain(looks, i + 1)
  }

  predicate MayHaveLanded(reply: Reply) {
    reply.Unreachable? || (reply.Response? && reply.status !in {CREATED, UNAUTHORIZED})
  }

  lemma NoLooks(trace: seq<Event>, looks: set<(nat, Reply)>)
    ensures LooksAgain(trace, looks, |trace|)
  {
  }

  lemma LooksOn(before: seq<Event>, looks: set<(nat, Reply)>, trace: seq<Event>, now: set<(nat, Reply)>, from: nat,
                e: Event)
    requires LooksAgain(before, looks, from) && looks <= now && trace == before + [e]
    requires e.Completed? && MayHaveLanded(e.reply) ==> LookedInVain(now, |trace|)
    ensures LooksAgain(trace, now, from)
  {
    forall i | from <= i < |trace| && trace[i].Completed? && MayHaveLanded(trace[i].reply)
      ensures LookedInVain(now, i + 1)
    {
      if i < |before| {
        assert trace[i] == before[i];
        assert LookedInVain(looks, i + 1);
        var reply :| (i + 1, reply) in looks && !(reply.Response? && IsSuccess(reply.status));
        assert (i + 1, reply) in now;
      }
    }
  }

  // ---------------------------------------------------------------- what a transfer may do

  /** The last thing recorded is the report of this position. */
  ghost predicate JustReported(trace: seq<Event>, position: UploadPosition) {
    trace != [] && Reports(trace[|trace| - 1]) == Some((position.location, position.offset))
  }

  ghost predicate NoSends(trace: seq<Event>, from: nat) {
    forall i :: from <= i < |trace| ==> !Sends(trace[i])
  }

  /** From number `from` on, one session is used, and no other opened. */
  ghost predicate AllAt(trace: seq<Event>, from: nat, location: string) {
    forall i :: from <= i < |trace| ==> !trace[i].Started? && trace[i].location == location
  }

  /** From number `from` on, one session is used, and sent only this message. */
  ghost predicate SendsOnly(trace: seq<Event>, from: nat, location: string, m: Protocol.Message) {
    && AllAt(trace, from, location)
    && forall i :: from <= i < |trace| && Sends(trace[i]) ==> trace[i].message == m
  }

  /** No report from number `from` on, short of the last `but`, goes as far as `limit`. */
  ghost predicate ReportsBelow(trace: seq<Event>, from: nat, but: nat, limit: nat) {
    forall i :: from <= i < |trace| - but && Reports(trace[i]).Some? ==> Reports(trace[i]).value.1 < limit
  }

  /** A stretch of sends of one message goes on: what was true of it up to now, and of the new part. */
  lemma GoOn(before: seq<Event>, trace: seq<Event>, from: nat, location: string, m: Protocol.Message, but: nat,
             limit: nat)
    requires from <= |before| && before <= trace
    requires SendsOnly(before, from, location, m) && ReportsBelow(before, from, 0, limit)
    requires SendsOnly(trace, |before|, location, m) && ReportsBelow(trace, |before|, but, limit)
    ensures SendsOnly(trace, from, location, m) && ReportsBelow(trace, from, but, limit)
  {
    hide Reports;
    assert forall i :: 0 <= i < |before| ==> trace[i] == before[i];
  }

  /** One PATCH, and what its reply reports. */
  lemma OnePatch(before: seq<Event>, location: string, m: Protocol.Message, reply: Reply, limit: nat)
    ensures var e := Patched(location, m, reply);
            var trace := before + [e];
      && SendsOnly(trace, |before|, location, m)
      && ReportsBelow(trace, |before|, 1, limit)
      && (Reports(e).None? ==> ReportsBelow(trace, |before|, 0, limit))
      && PatchedAt(trace, |before|, m.start)
      && (forall location_, offset :: Reports(e) == Some((location_, offset)) ==>
            JustReported(trace, UploadPosition(location_, offset)))
  {
    var trace := before + [Patched(location, m, reply)];
    assert trace[|before|] == Patched(location, m, reply);
    hide Reports;
  }

  /** One message is being sent, as often as it takes, and no report yet, short of the last `but`, ends it. */
  ghost predicate Sending(trace: seq<Event>, from: nat, location: string, m: Protocol.Message, but: nat, limit: nat) {
    SendsOnly(trace, from, location, m) && ReportsBelow(trace, from, but, limit)
  }

  lemma PatchOnRecord(before: seq<Event>, from: nat, location: string, m: Protocol.Message, reply: Reply, limit: nat)
    requires from <= |before| && Sending(before, from, location, m, 0, limit)
    ensures var trace := before + [Patched(location, m, reply)];
      && Sending(trace, from, location, m, 1, limit) && PatchedAt(trace, from, m.start)
      && if reply.Response? && reply.status == ACCEPTED && reply.range.Some?
         && ParseRangeOffset(reply.range.value).Some? then
           var position := PositionOf(reply, ParseRangeOffset(reply.range.value).value);
           position.Some? ==> JustReported(trace, position.value)
         else Sending(trace, from, location, m, 0, limit)
  {
    hide Reports, SendsOnly, ReportsBelow, JustReported, PatchedAt, ParseRangeOffset;
    var trace := before + [Patched(location, m, reply)];
    OnePatch(before, location, m, reply, limit);
    PatchReports(location, m, reply);
    GoOn(before, trace, from, location, m, 1, limit);
    PatchedStays(trace, trace, from, |before|, m.start);
    if Reports(Patched(location, m, reply)).None? {
      GoOn(before, trace, from, location, m, 0, limit);
    }
  }

  lemma QueryOnRecord(before: seq<Event>, trace: seq<Event>, from: nat, location: string, m: Protocol.Message,
                      r: Option<UploadPosition>, limit: nat)
    requires from <= |before| && before <= trace && Sending(before, from, location, m, 0, limit)
    requires NoSends(trace, |before|) && AllAt(trace, |before|, location)
    requires forall i :: |before| <= i < |trace| && Reports(trace[i]).Some? ==> i == |trace| - 1 && r.Some?
    requires r.Some? ==> JustReported(trace, r.value)
    ensures Sending(trace, from, location, m, 1, limit)
    ensures PatchedAt(before, from, m.start) ==> PatchedAt(trace, from, m.start)
    ensures r.None? || r.value.offset < limit ==> Sending(trace, from, location, m, 0, limit)
  {
    hide Reports, SendsOnly, ReportsBelow, JustReported, PatchedAt, NoSends, AllAt;
    OneQuery(before, trace, location, m, r, limit);
    GoOn(before, trace, from, location, m, 1, limit);
    if PatchedAt(before, from, m.start) {
      PatchedStays(before, trace, from, from, m.start);
    }
    if r.None? || r.value.offset < limit {
      GoOn(before, trace, from, location, m, 0, limit);
    }
  }

  /** A session is being asked, and has not answered, short of the last `but`. */
  ghost predicate Asking(trace: seq<Event>, from: nat, location: string, but: nat) {
    && from <= |trace| && NoSends(trace, from) && AllAt(trace, from, location) && OnlyAsked(trace, from)
    && forall i :: from <= i < |trace| - but ==> Reports(trace[i]).None?
  }

  lemma AskedOnRecord(before: seq<Event>, from: nat, location: string, reply: Reply)
    requires Asking(before, from, location, 0)
    requires reply.Response? && IsSuccess(reply.status) ==> reply.location == Some(location)
    ensures var trace := before + [Asked(location, reply)];
      && Asking(trace, from, location, 1)
      && if Answered(reply) then JustReported(trace, UploadPosition(location, StatusOffset(reply.range).value))
         else Asking(trace, from, location, 0)
  {
    var trace := before + [Asked(location, reply)];
    assert forall i :: 0 <= i < |before| ==> trace[i] == before[i];
    hide StatusOffset;
  }

  lemma AskingBegins(trace: seq<Event>, location: string)
    ensures Asking(trace, |trace|, location, 0)
  {
  }

  lemma AskingEnds(trace: seq<Event>, from: nat, location: string, r: Option<UploadPosition>)
    requires if r.Some? then Asking(trace, from, location, 1) else Asking(trace, from, location, 0)
    ensures NoSends(trace, from) && AllAt(trace, from, location) && OnlyAsked(trace, from)
    ensures forall i :: from <= i < |trace| && Reports(trace[i]).Some? ==> i == |trace| - 1 && r.Some?
  {
    hide Reports;
  }

  lemma Settled(trace: seq<Event>, from: nat, location: string, m: Protocol.Message, limit: nat)
    requires Sending(trace, from, location, m, 0, limit)
    ensures Sending(trace, from, location, m, 1, limit)
  {
    hide Reports;
  }

  lemma NothingSent(trace: seq<Event>, location: string, m: Protocol.Message, limit: nat)
    ensures Sending(trace, |trace|, location, m, 0, limit) && AsksAgain(trace, |trace|)
  {
  }

  lemma PatchedStays(before: seq<Event>, trace: seq<Event>, from: nat, later: nat, start: nat)
    requires from <= later && before <= trace && PatchedAt(before, later, start)
    ensures PatchedAt(trace, from, start)
  {
    var i :| later <= i < |before| && before[i].Patched? && before[i].message.start == start;
    assert trace[i] == before[i];
  }

  /** A PATCH reports the position its reply gives, and nothing unless it was accepted. */
  lemma PatchReports(location: string, m: Protocol.Message, reply: Reply)
    ensures var reported := Reports(Patched(location, m, reply));
      if reply.Response? && reply.status == ACCEPTED && reply.range.Some?
         && ParseRangeOffset(reply.range.value).Some? then
        var position := PositionOf(reply, ParseRangeOffset(reply.range.value).value);
        reported == if position.None? then None else Some((position.value.location, position.value.offset))
      else reported.None?
  {
  }

  /** A status query among the sends. */
  lemma OneQuery(before: seq<Event>, trace: seq<Event>, location: string, m: Protocol.Message,
                 r: Option<UploadPosition>, limit: nat)
    requires NoSends(trace, |before|) && AllAt(trace, |before|, location)
    requires forall i :: |before| <= i < |trace| && Reports(trace[i]).Some? ==> i == |trace| - 1 && r.Some?
    requires r.Some? ==> JustReported(trace, r.value)
    ensures SendsOnly(trace, |before|, location, m)
    ensures ReportsBelow(trace, |before|, 1, limit)
    ensures r.None? || r.value.offset < limit ==> ReportsBelow(trace, |before|, 0, limit)
  {
    hide Reports;
  }

  /** What was sent as number `i` of a transfer that began at `base`. */
  ghost predicate Fits(file: Bytes, size: nat, trace: seq<Event>, base: nat, i: nat)
    requires i < |trace| && Sends(trace[i])
  {
    var m := trace[i].message;
    && m.start in Acked(trace[..i], trace[i].location)
    && (if m.PatchMessage? then |m.body| == CHUNK_SIZE && m.start + CHUNK_SIZE <= size
        else m.start + |m.body| == size && |m.body| < CHUNK_SIZE)
    && (size <= |file| ==> Protocol.CutFrom(file[..size], CHUNK_SIZE, m))
    && forall j :: base <= j < i && Reports(trace[j]).Some? ==> Reports(trace[j]).value.1 < m.start + CHUNK_SIZE
  }

  ghost predicate AllFit(file: Bytes, size: nat, trace: seq<Event>, base: nat) {
    forall i :: base <= i < |trace| && Sends(trace[i]) ==> Fits(file, size, trace, base, i)
  }

  ghost predicate PatchedAt(trace: seq<Event>, base: nat, start: nat) {
    exists i :: base <= i < |trace| && trace[i].Patched? && trace[i].message.start == start
  }

  ghost predicate CompletedAt(trace: seq<Event>, base: nat, start: nat) {
    exists i :: base <= i < |trace| && trace[i].Completed? && trace[i].message.start == start
  }

  /** Every send starts a whole number of chunks after `p0`. */
  ghost predicate OnGrid(trace: seq<Event>, base: nat, p0: nat) {
    forall i :: base <= i < |trace| && Sends(trace[i]) ==>
      exists k: nat :: trace[i].message.start == p0 + k * CHUNK_SIZE
  }

  /** The first `n` chunks after `p0` have been sent. */
  ghost predicate Sent(trace: seq<Event>, base: nat, p0: nat, n: nat) {
    forall k: nat :: k < n ==> PatchedAt(trace, base, p0 + k * CHUNK_SIZE)
  }

  /** Every whole chunk between `p0` and `size` has been sent, and then the rest, shorter than a chunk. */
  ghost predicate AllSent(trace: seq<Event>, base: nat, p0: nat, size: nat) {
    exists n: nat :: p0 + n * CHUNK_SIZE <= size < p0 + n * CHUNK_SIZE + CHUNK_SIZE
      && Sent(trace, base, p0, n) && CompletedAt(trace, base, p0 + n * CHUNK_SIZE)
  }

  lemma AckedEarlier(trace: seq<Event>, k: nat, i: nat)
    requires k < i <= |trace| && Reports(trace[k]).Some?
    ensures Reports(trace[k]).value.1 in Acked(trace[..i], Reports(trace[k]).value.0)
  {
    hide Reports;
    assert trace[..i][k] == trace[k];
  }

  /** Sending one message, as often as it takes, right after its offset was reported. */
  lemma SendsFit(file: Bytes, size: nat, before: seq<Event>, trace: seq<Event>, base: nat,
                 location: string, m: Protocol.Message)
    requires base <= |before| && before <= trace
    requires JustReported(before, UploadPosition(location, m.start))
    requires AllFit(file, size, before, base) && ReportsBelow(before, base, 0, m.start + 1)
    requires SendsOnly(trace, |before|, location, m)
    requires ReportsBelow(trace, |before|, 1, m.start + CHUNK_SIZE)
    requires if m.PatchMessage? then |m.body| == CHUNK_SIZE && m.start + CHUNK_SIZE <= size
             else m.start + |m.body| == size && |m.body| < CHUNK_SIZE
    requires size <= |file| ==> Protocol.CutFrom(file[..size], CHUNK_SIZE, m)
    ensures AllFit(file, size, trace, base)
  {
    hide Reports, Acked, Protocol.CutFrom;
    forall i | base <= i < |trace| && Sends(trace[i])
      ensures Fits(file, size, trace, base, i)
    {
      if i < |before| {
        assert Fits(file, size, before, base, i);
        assert trace[..i] == before[..i];
      } else {
        AckedEarlier(trace, |before| - 1, i);
        assert trace[|before| - 1] == before[|before| - 1];
        assert forall j :: base <= j < |before| ==> trace[j] == before[j];
      }
    }
  }

  /** Sending the chunk number `n` after `p0`. */
  lemma ChunkSent(before: seq<Event>, trace: seq<Event>, base: nat, p0: nat, n: nat, location: string,
                  m: Protocol.Message)
    requires base <= |before| && before <= trace
    requires OnGrid(before, base, p0) && Sent(before, base, p0, n) && AllAt(before, base, location)
    requires SendsOnly(trace, |before|, location, m) && m.start == p0 + n * CHUNK_SIZE
    ensures OnGrid(trace, base, p0) && Sent(trace, base, p0, n) && AllAt(trace, base, location)
    ensures PatchedAt(trace, |before|, m.start) ==> Sent(trace, base, p0, n + 1)
  {
    forall i | base <= i < |trace| && Sends(trace[i])
      ensures exists k: nat :: trace[i].message.start == p0 + k * CHUNK_SIZE
    {
      if i < |before| {
        assert trace[i] == before[i];
      }
    }
    assert forall i :: 0 <= i < |before| ==> trace[i] == before[i];
    hide Sends, SendsOnly, OnGrid, AllAt;
    forall k: nat | k < n
      ensures PatchedAt(trace, base, p0 + k * CHUNK_SIZE)
    {
      PatchedStays(before, trace, base, base, p0 + k * CHUNK_SIZE);
    }
    if PatchedAt(trace, |before|, m.start) {
      PatchedStays(trace, trace, base, |before|, m.start);
    }
  }

  /** Reports of a transfer stay at or below its position. */
  lemma ReportsUpTo(before: seq<Event>, trace: seq<Event>, base: nat, position: UploadPosition, low: nat, limit: nat)
    requires base <= |before| && before <= trace && low <= limit
    requires ReportsBelow(before, base, 0, low) && ReportsBelow(trace, |before|, 1, limit)
    requires JustReported(trace, position) && position.offset == limit
    ensures ReportsBelow(trace, base, 0, limit + 1)
  {
    hide Reports;
    assert forall i :: 0 <= i < |before| ==> trace[i] == before[i];
  }

  /** What is true of the record of a transfer at any time, finished or broken off. */
  ghost predicate Kept(trace: seq<Event>, file: Bytes, size: nat, base: nat, start: UploadPosition) {
    AllFit(file, size, trace, base) && OnGrid(trace, base, start.offset) && AllAt(trace, base, start.location)
  }

  /** A transfer that has sent `n` chunks, and was told so. */
  ghost predicate Progress(trace: seq<Event>, file: Bytes, size: nat, base: nat, start: UploadPosition,
                           position: UploadPosition, n: nat)
  {
    && base <= |trace|
    && position.location == start.location && position.offset == start.offset + n * CHUNK_SIZE <= size
    && JustReported(trace, position)
    && ReportsBelow(trace, base, 0, position.offset + 1)
    && Sent(trace, base, start.offset, n)
  }

  lemma ProgressBegins(trace: seq<Event>, file: Bytes, size: nat, start: UploadPosition)
    requires JustReported(trace, start) && start.offset <= size
    ensures Progress(trace, file, size, |trace|, start, start, 0) && Kept(trace, file, size, |trace|, start)
  {
    hide JustReported, Reports;
  }

  lemma ChunkProgress(before: seq<Event>, trace: seq<Event>, file: Bytes, size: nat, base: nat, start: UploadPosition,
                      position: UploadPosition, n: nat, m: Protocol.Message, next: Option<UploadPosition>)
    requires before <= trace
    requires Progress(before, file, size, base, start, position, n) && Kept(before, file, size, base, start)
    requires m.PatchMessage? && |m.body| == CHUNK_SIZE && m.start == position.offset && m.start + CHUNK_SIZE <= size
    requires size <= |file| ==> Protocol.CutFrom(file[..size], CHUNK_SIZE, m)
    requires Sending(trace, |before|, position.location, m, 1, m.start + CHUNK_SIZE)
    requires next.Some? ==>
      JustReported(trace, next.value) && next.value.location == position.location && PatchedAt(trace, |before|, m.start)
    ensures Kept(trace, file, size, base, start)
    ensures next.Some? && next.value.offset == m.start + CHUNK_SIZE ==>
      Progress(trace, file, size, base, start, next.value, n + 1)
  {
    hide Reports, SendsOnly, ReportsBelow, JustReported, PatchedAt, AllFit, OnGrid, Sent, AllAt, Protocol.CutFrom;
    SendsFit(file, size, before, trace, base, position.location, m);
    ChunkSent(before, trace, base, start.offset, n, position.location, m);
    if next.Some? && next.value.offset == m.start + CHUNK_SIZE {
      ReportsUpTo(before, trace, base, next.value, m.start + 1, m.start + CHUNK_SIZE);
    }
  }

  lemma FinalProgress(before: seq<Event>, trace: seq<Event>, file: Bytes, size: nat, base: nat, start: UploadPosition,
                      position: UploadPosition, n: nat, m: Protocol.Message)
    requires before <= trace && |before| < |trace|
    requires Progress(before, file, size, base, start, position, n) && Kept(before, file, size, base, start)
    requires m.PutMessage? && m.start == position.offset && m.start + |m.body| == size && |m.body| < CHUNK_SIZE
    requires size <= |file| ==> Protocol.CutFrom(file[..size], CHUNK_SIZE, m)
    requires exists digest :: Completions(trace, |before|, position.location, m, digest)
    ensures Kept(trace, file, size, base, start) && AllSent(trace, base, start.offset, size)
  {
    var digest :| Completions(trace, |before|, position.location, m, digest);
    CompletionsSend(trace, |before|, position.location, m, digest);
    hide Reports, SendsOnly, ReportsBelow, JustReported, PatchedAt, AllFit, OnGrid, Sent, AllAt, CompletedAt,
          Protocol.CutFrom;
    CompletionReports(before, trace, base, position.location, m, m.start + CHUNK_SIZE);
    SendsFit(file, size, before, trace, base, position.location, m);
    ChunkSent(before, trace, base, start.offset, n, position.location, m);
    assert start.offset + n * CHUNK_SIZE <= size < start.offset + n * CHUNK_SIZE + CHUNK_SIZE;
  }

  // ---------------------------------------------------------------- where an upload begins

  /** The session answered with an offset from which the upload can go on. */
  ghost predicate Usable(e: Event, location: string, size: nat) {
    && e.Asked? && e.location == location
    && Reports(e).Some? && Reports(e).value.1 <= size && Reports(e).value.1 % CHUNK_SIZE == 0
  }

  ghost predicate NothingOpened(trace: seq<Event>, from: nat) {
    forall i :: from <= i < |trace| ==> !trace[i].Started?
  }

  ghost predicate NothingUsable(trace: seq<Event>, from: nat, base: nat, location: string, size: nat) {
    forall i :: from <= i < base && i < |trace| ==> !Usable(trace[i], location, size)
  }

  /**
   How an upload for which `saved` is remembered finds its position, on record from number `from` up
   to number `base`: the session remembered is asked first. If it answers with a usable offset, that
   is the start, and no session is opened in the whole upload; a session is opened only if it does not.
   */
  ghost predicate Resumes(trace: seq<Event>, from: nat, base: nat, saved: Option<ResumeEntry>, size: nat) {
    && from <= base <= |trace|
    && (saved.Some? && from < |trace| ==> trace[from].Asked? && trace[from].location == saved.value.location)
    && (saved.Some? && !NothingUsable(trace, from, base, saved.value.location, size) ==>
          base > from && Usable(trace[base - 1], saved.value.location, size) && NothingOpened(trace, from))
  }

  /** An answer is the last thing on record, and was usable or was not. */
  lemma AnswerDecides(trace: seq<Event>, from: nat, saved: ResumeEntry, size: nat, position: Option<UploadPosition>)
    requires from < |trace| && AllAt(trace, from, saved.location) && OnlyAsked(trace, from)
    requires forall i :: from <= i < |trace| && Reports(trace[i]).Some? ==> i == |trace| - 1 && position.Some?
    requires position.Some? ==> JustReported(trace, position.value)
    ensures Resumes(trace, from, |trace|, Some(saved), size)
    ensures !(position.Some? && position.value.offset <= size && position.value.offset % CHUNK_SIZE == 0) ==>
              NothingUsable(trace, from, |trace|, saved.location, size)
    ensures trace[from].Asked? && trace[from].location == saved.location
  {
    hide Reports;
  }

  ghost predicate OnlyAsked(trace: seq<Event>, from: nat) {
    forall i :: from <= i < |trace| ==> trace[i].Asked?
  }

  ghost predicate OnlyStarted(trace: seq<Event>, from: nat) {
    forall i :: from <= i < |trace| ==> trace[i].Started?
  }

  lemma NothingAsked(trace: seq<Event>, saved: Option<ResumeEntry>, size: nat)
    ensures Resumes(trace, |trace|, |trace|, saved, size) && NoSends(trace, |trace|)
  {
  }

  lemma KeptIsAt(trace: seq<Event>, file: Bytes, size: nat, base: nat, start: UploadPosition)
    requires Kept(trace, file, size, base, start)
    ensures AllAt(trace, base, start.location)
  {
  }

  /** Opening a session answers nothing. */
  lemma OpeningDecides(before: seq<Event>, trace: seq<Event>, from: nat, saved: Option<ResumeEntry>, size: nat)
    requires from <= |before| && before <= trace
    requires OnlyStarted(trace, |before|) && NoSends(before, from)
    requires saved.Some? ==>
      && from < |before| && before[from].Asked? && before[from].location == saved.value.location
      && NothingUsable(before, from, |before|, saved.value.location, size)
    ensures Resumes(trace, from, |trace|, saved, size) && NoSends(trace, from)
  {
    hide Reports;
    assert forall i :: 0 <= i < |before| ==> trace[i] == before[i];
  }

  /** The transfer opens no session. */
  lemma ResumesStays(before: seq<Event>, trace: seq<Event>, from: nat, saved: Option<ResumeEntry>, size: nat,
                     location: string)
    requires Resumes(before, from, |before|, saved, size) && before <= trace && AllAt(trace, |before|, location)
    requires from < |before|
    ensures Resumes(trace, from, |before|, saved, size)
  {
    hide Reports, Usable;
    assert forall i :: 0 <= i < |before| ==> trace[i] == before[i];
    if saved.Some? && !NothingUsable(trace, from, |before|, saved.value.location, size) {
      assert !NothingUsable(before, from, |before|, saved.value.location, size);
    }
  }

  // ---------------------------------------------------------------- what is remembered

  ghost predicate SentUpTo(trace: seq<Event>, base: nat, offset: nat) {
    forall i :: base <= i < |trace| && Sends(trace[i]) ==> trace[i].message.start <= offset
  }

  ghost predicate HasReported(trace: seq<Event>, location: string, offset: nat) {
    exists j :: 0 <= j < |trace| && Reports(trace[j]) == Some((location, offset))
  }

  /**
   The position a transfer had come to: every chunk before it was sent, it was reported, and nothing
   that begins after it was sent.
   */
  ghost predicate Reached(trace: seq<Event>, size: nat, base: nat, start: UploadPosition, e: ResumeEntry) {
    && e.location == start.location && e.offset <= size
    && (exists n: nat :: e.offset == start.offset + n * CHUNK_SIZE && Sent(trace, base, start.offset, n))
    && SentUpTo(trace, base, e.offset)
    && HasReported(trace, e.location, e.offset)
  }

  ghost predicate Going(trace: seq<Event>, file: Bytes, size: nat, base: nat, start: UploadPosition,
                        position: UploadPosition, n: nat)
  {
    && Progress(trace, file, size, base, start, position, n) && Kept(trace, file, size, base, start)
    && SentUpTo(trace, base, position.offset)
  }

  lemma GoingBegins(trace: seq<Event>, file: Bytes, size: nat, start: UploadPosition)
    requires JustReported(trace, start) && start.offset <= size
    ensures Going(trace, file, size, |trace|, start, start, 0)
    ensures Reached(trace, size, |trace|, start, ResumeEntry(start.location, start.offset))
  {
    ProgressBegins(trace, file, size, start);
    GoingReached(trace, file, size, |trace|, start, start, 0);
  }

  lemma GoingIsKept(trace: seq<Event>, file: Bytes, size: nat, base: nat, start: UploadPosition,
                    position: UploadPosition, n: nat)
    requires Going(trace, file, size, base, start, position, n)
    ensures Kept(trace, file, size, base, start) && Progress(trace, file, size, base, start, position, n)
    ensures base <= |trace|
  {
  }

  lemma GoingReached(trace: seq<Event>, file: Bytes, size: nat, base: nat, start: UploadPosition,
                     position: UploadPosition, n: nat)
    requires Going(trace, file, size, base, start, position, n)
    ensures Reached(trace, size, base, start, ResumeEntry(position.location, position.offset))
    ensures JustReported(trace, position)
  {
    hide Reports, Sent, SentUpTo, Kept;
    assert Reports(trace[|trace| - 1]) == Some((position.location, position.offset));
    assert position.offset == start.offset + n * CHUNK_SIZE && Sent(trace, base, start.offset, n);
    assert HasReported(trace, position.location, position.offset);
  }

  /** A send of the chunk at the position takes nothing back. */
  lemma StillReached(before: seq<Event>, trace: seq<Event>, size: nat, base: nat, start: UploadPosition,
                     e: ResumeEntry, m: Protocol.Message)
    requires base <= |before| && before <= trace && Reached(before, size, base, start, e)
    requires SendsOnly(trace, |before|, e.location, m) && m.start <= e.offset
    ensures Reached(trace, size, base, start, e)
  {
    hide Reports, Sends, PatchedAt, SentUpTo;
    var n: nat :| e.offset == start.offset + n * CHUNK_SIZE && Sent(before, base, start.offset, n);
    forall k: nat | k < n
      ensures PatchedAt(trace, base, start.offset + k * CHUNK_SIZE)
    {
      PatchedStays(before, trace, base, base, start.offset + k * CHUNK_SIZE);
    }
    assert Sent(trace, base, start.offset, n);
    var j :| 0 <= j < |before| && Reports(before[j]) == Some((e.location, e.offset));
    assert Reports(trace[j]) == Some((e.location, e.offset));
    assert HasReported(trace, e.location, e.offset);
    SentUpToMore(before, trace, base, e.offset, m);
  }

  lemma SentUpToMore(before: seq<Event>, trace: seq<Event>, base: nat, offset: nat, m: Protocol.Message)
    requires base <= |before| && before <= trace && SentUpTo(before, base, offset) && m.start <= offset
    requires forall i :: |before| <= i < |trace| && Sends(trace[i]) ==> trace[i].message == m
    ensures SentUpTo(trace, base, offset)
  {
    assert forall i :: 0 <= i < |before| ==> trace[i] == before[i];
  }

  /** Sending the chunk at the position: the transfer goes on behind it, or can be taken up before it. */
  lemma ChunkGoesOn(before: seq<Event>, trace: seq<Event>, file: Bytes, size: nat, base: nat, start: UploadPosition,
                    position: UploadPosition, n: nat, m: Protocol.Message, next: Option<UploadPosition>)
    requires before <= trace && Going(before, file, size, base, start, position, n)
    requires m.PatchMessage? && |m.body| == CHUNK_SIZE && m.start == position.offset && m.start + CHUNK_SIZE <= size
    requires size <= |file| ==> Protocol.CutFrom(file[..size], CHUNK_SIZE, m)
    requires Sending(trace, |before|, position.location, m, 1, m.start + CHUNK_SIZE)
    requires next.Some? ==>
      JustReported(trace, next.value) && next.value.location == position.location && PatchedAt(trace, |before|, m.start)
    ensures Kept(trace, file, size, base, start)
    ensures Reached(trace, size, base, start, ResumeEntry(position.location, position.offset))
    ensures next.Some? && next.value.offset == m.start + CHUNK_SIZE ==>
      Going(trace, file, size, base, start, next.value, n + 1)
  {
    GoingReached(before, file, size, base, start, position, n);
    hide Reports, ReportsBelow, JustReported, PatchedAt, AllFit, OnGrid, Sent, AllAt, Protocol.CutFrom, Reached, Kept,
          SentUpTo, Sends;
    assert base <= |before|;
    ChunkProgress(before, trace, file, size, base, start, position, n, m, next);
    hide Progress;
    StillReached(before, trace, size, base, start, ResumeEntry(position.location, position.offset), m);
    SentUpToMore(before, trace, base, position.offset, m);
    if next.Some? && next.value.offset == m.start + CHUNK_SIZE {
      SentUpToGrows(trace, base, position.offset, next.value.offset);
    }
  }

  lemma SentUpToGrows(trace: seq<Event>, base: nat, offset: nat, later: nat)
    requires SentUpTo(trace, base, offset) && offset <= later
    ensures SentUpTo(trace, base, later)
  {
  }

  /** The final PUT begins at the position too. */
  lemma RestReached(before: seq<Event>, trace: seq<Event>, file: Bytes, size: nat, base: nat, start: UploadPosition,
                    position: UploadPosition, n: nat, m: Protocol.Message)
    requires before <= trace && Going(before, file, size, base, start, position, n) && m.start == position.offset
    requires SendsOnly(trace, |before|, position.location, m)
    ensures Reached(trace, size, base, start, ResumeEntry(position.location, position.offset))
  {
    GoingReached(before, file, size, base, start, position, n);
    hide Reports, Reached, Kept, SentUpTo, SendsOnly;
    assert base <= |before|;
    StillReached(before, trace, size, base, start, ResumeEntry(position.location, position.offset), m);
  }

  lemma OffsetDiffers(trace: seq<Event>, uploads: Snapshot, key: string, next: UploadPosition)
    requires JustReported(trace, next) && key in uploads && next.offset != uploads[key].offset + CHUNK_SIZE
    ensures OtherOffset(trace, uploads, key)
  {
    hide Reports;
  }

  lemma ShortFile(file: Bytes, at: nat, length: nat)
    requires ReadExact(file, at, length).None?
    ensures |file| < at + length
  {
  }

  /** No other entry has changed. */
  ghost predicate OnlyAt(key: string, before: Snapshot, now: Snapshot) {
    now - {key} == before - {key}
  }

  lemma SetOnlyAt(key: string, before: Snapshot, now: Snapshot, e: ResumeEntry)
    requires OnlyAt(key, before, now)
    ensures OnlyAt(key, before, now[key := e])
  {
    assert now[key := e] - {key} == now - {key};
  }

  lemma OnlyAtAlways(key: string)
    ensures forall a :: OnlyAt(key, a, a)
    ensures forall a, b, c :: OnlyAt(key, a, b) && OnlyAt(key, b, c) ==> OnlyAt(key, a, c)
  {
  }

  /** The last reply accepted a chunk, but not as the next one after the position remembered. */
  ghost predicate OtherOffset(trace: seq<Event>, uploads: Snapshot, key: string) {
    trace != [] && Reports(trace[|trace| - 1]).Some?
    && key in uploads && Reports(trace[|trace| - 1]).value.1 != uploads[key].offset + CHUNK_SIZE
  }

  /** What the client reads from the file is what the protocol wants sent. */
  lemma ChunkIsCut(file: Bytes, size: nat, m: Protocol.Message)
    requires if m.PatchMessage? then m.start + CHUNK_SIZE <= size else m.start <= size < m.start + CHUNK_SIZE
    requires var length := if m.PatchMessage? then CHUNK_SIZE else size - m.start;
             if m.PutMessage? && length == 0 then m.body == [] else ReadExact(file, m.start, length) == Some(m.body)
    ensures if m.PatchMessage? then |m.body| == CHUNK_SIZE && m.start + CHUNK_SIZE <= size
            else m.start + |m.body| == size && |m.body| < CHUNK_SIZE
    ensures size <= |file| ==> Protocol.CutFrom(file[..size], CHUNK_SIZE, m)
  {
    if size <= |file| {
      var blob := file[..size];
      if m.PatchMessage? {
        assert blob[m.start..m.start + CHUNK_SIZE] == file[m.start..m.start + CHUNK_SIZE];
      } else {
        assert blob[m.start..] == file[m.start..size];
      }
    }
  }

  /** From number `from` on, nothing but this PUT is on record. */
  ghost predicate Completions(trace: seq<Event>, from: nat, location: string, m: Protocol.Message, digest: Digest) {
    forall i :: from <= i < |trace| ==>
      trace[i].Completed? && trace[i].location == location && trace[i].message == m && trace[i].digest == digest
  }

  lemma NoCompletions(trace: seq<Event>, location: string, digest: Digest)
    ensures forall m :: Completions(trace, |trace|, location, m, digest)
  {
  }

  lemma OneCompletion(before: seq<Event>, from: nat, location: string, m: Protocol.Message, digest: Digest,
                      reply: Reply)
    requires Completions(before, from, location, m, digest)
    ensures Completions(before + [Completed(location, m, digest, reply)], from, location, m, digest)
  {
  }

  lemma CompletionsSend(trace: seq<Event>, from: nat, location: string, m: Protocol.Message, digest: Digest)
    requires Completions(trace, from, location, m, digest)
    ensures SendsOnly(trace, from, location, m) && forall i :: from <= i < |trace| ==> trace[i].Completed?
  {
  }

  lemma HeaderIs(m: Protocol.Message, header: Option<string>)
    requires header == if m.body == [] then None else Some(Pair(m.start, m.start + |m.body| - 1))
    ensures HeaderOf(m, header)
  {
  }

  /** A completion reports no offsets, and is on record. */
  lemma CompletionReports(before: seq<Event>, trace: seq<Event>, base: nat, location: string, m: Protocol.Message,
                          limit: nat)
    requires base <= |before| < |trace|
    requires forall i :: |before| <= i < |trace| ==> trace[i].Completed?
    requires SendsOnly(trace, |before|, location, m)
    ensures ReportsBelow(trace, |before|, 1, limit) && CompletedAt(trace, base, m.start)
  {
    assert Sends(trace[|before|]);
  }

  /**
   An upload of a blob, on record from number `from` on: nothing is sent before number `base`; the
   report before it gives the session and the offset on which all sends rest. If the upload
   succeeds, every whole chunk after that offset was sent, and one PUT with the rest.
   */
  ghost predicate Uploaded(trace: seq<Event>, from: nat, base: nat, blob: Walk.BlobFile, file: Bytes,
                           start: UploadPosition, ok: bool)
  {
    && from < base <= |trace|
    && (forall i :: from <= i < base ==> !Sends(trace[i]))
    && Reports(trace[base - 1]) == Some((start.location, start.offset))
    && start.offset <= blob.size && start.offset % CHUNK_SIZE == 0
    && Kept(trace, file, blob.size, base, start)
    && (ok ==> AllSent(trace, base, start.offset, blob.size))
  }

  /** The file is as it was prepared, and everybody else who uses the session uploads it too. */
  predicate IsFor(blob: Walk.BlobFile, file: Bytes, purpose: Bytes) {
    |file| == blob.size && purpose == file
  }

  /** Offsets once reported stay reported, so a message once allowed stays allowed. */
  lemma StillAllowed(sessions: map<string, Protocol.World>, sessions': map<string, Protocol.World>, location: string,
                     blob: Bytes, m: Protocol.Message)
    requires SessionsGrow(sessions, sessions') && location in sessions
    ensures location in sessions'
    ensures Protocol.Allowed(blob, CHUNK_SIZE, sessions[location].acks, m) ==>
              Protocol.Allowed(blob, CHUNK_SIZE, sessions'[location].acks, m)
  {
  }

  /** A reported position is one of a session that has reported it. */
  lemma ReportedIsAcked(sessions: map<string, Protocol.World>, trace: seq<Event>, position: UploadPosition)
    requires TraceTrue(sessions, trace) && JustReported(trace, position)
    ensures position.location in sessions && position.offset in sessions[position.location].acks
  {
    hide Reports;
    assert EventTrue(sessions, trace[|trace| - 1]);
  }

  /** What is cut from the file right after its offset was reported is what the protocol allows. */
  lemma CutIsAllowed(blob: Walk.BlobFile, file: Bytes, purpose: Bytes, acks: set<nat>, m: Protocol.Message)
    requires m.start in acks && IsFor(blob, file, purpose)
    requires blob.size <= |file| ==> Protocol.CutFrom(file[..blob.size], CHUNK_SIZE, m)
    ensures Protocol.Allowed(purpose, CHUNK_SIZE, acks, m)
  {
    assert file[..blob.size] == file;
  }

  /** The PUT of `m` met some later state, and had the answer that state gives. */
  ghost predicate HandledAs(env: Env, target: Target, before: State, reference: string, m: Walk.ManifestObject,
                            push: Push) {
    exists at: State ::
      Grows(before, at, target) && StateTrue(env, target, at)
      && push == Push(reference, m.bytes, PushRefusal(env, at, target.repo, reference, Some(m.mediaType), m.bytes))
  }

  /** Every manifest PUT on record from number `from` on, and whether the registry's checks passed it. */
  ghost predicate PushesPass(env: Env, image: Walk.PreparedImage, pushes: seq<Push>, from: nat) {
    forall e :: from <= e < |pushes| ==> PushPasses(env, image, pushes[e])
  }

  ghost predicate PushPasses(env: Env, image: Walk.PreparedImage, push: Push) {
    exists i :: 0 <= i < |image.manifests| && push.bytes == image.manifests[i].bytes
      && PassedIffGood(env, image.manifests[i], push.refusal)
  }

  /** Only a subject of negative size is refused; besides that, only the tag can be. */
  ghost predicate PassedIffGood(env: Env, m: Walk.ManifestObject, refusal: Option<Error>) {
    if BadSubject(env.codec, m) then refusal == Some(ManifestInvalid)
    else refusal in {None, Some(TagInvalid), Some(TagImmutable), Some(PatternInvalid)}
  }

  /**
   What was sent to the session from number `base` on are steps of the session's run, and none of it
   had been reported as accepted before, from `base` on.
   */
  ghost predicate FollowsProtocol(remote: Remote, base: nat, location: string)
    reads remote
  {
    && location in remote.runs && location in remote.sessions
    && remote.sessions[location] == Protocol.Run(remote.Cfg(location), remote.runs[location])
    && forall i :: base <= i < |remote.trace| && Sends(remote.trace[i]) ==>
         && remote.trace[i].message in remote.sessions[location].pool
         && forall j :: base <= j < i && Reports(remote.trace[j]).Some? ==>
              Reports(remote.trace[j]).value.1 <= remote.trace[i].message.start
  }

  class RegistryClient {
    const remote: Remote
    const registry: string

    constructor (remote: Remote, registry: string)
      ensures this.remote == remote && this.registry == registry
    {
      this.remote := remote;
      this.registry := registry;
    }

    /** What every call keeps. */
    twostate predicate Went()
      reads remote
    {
      && remote.Valid()
      && Grows(old(remote.state), remote.state, remote.target)
      && SessionsGrow(old(remote.sessions), remote.sessions)
      && old(remote.trace) <= remote.trace
    }

    /** What every call of an upload keeps. */
    twostate predicate Uploading()
      reads remote
    {
      Went() && remote.pushes == old(remote.pushes)
    }

    /** The protocol allows the message, as things stand with the session. */
    predicate Allows(location: string, m: Protocol.Message)
      reads remote
    {
      && location in remote.sessions
      && Protocol.Allowed(remote.purpose(location), CHUNK_SIZE, remote.sessions[location].acks, m)
    }

    method BlobExists(digest: Digest) returns (r: Option<bool>)
      requires remote.Valid()
      modifies remote`clock, remote`state, remote`sessions, remote`runs, remote`troubles, remote`looks
      ensures Went() && remote.trace == old(remote.trace)
      ensures r == Some(true) ==> remote.HasBlob(digest)
      ensures old(remote.looks) <= remote.looks
      ensures r != Some(true) ==> LookedInVain(remote.looks, |remote.trace|)
      ensures Clear(remote.plan(old(remote.clock))) ==> r == Some(old(remote.HasBlob(digest)))
      ensures var (was, now) := (old(remote.troubles), remote.troubles);
        && TroublesGrow(was, now) && now == was.(head := now.head, refused := now.refused)
        && (r.None? ==> GaveUp(was.head, now.head) || was.refused < now.refused)
    {
      hide Remote.Valid, RemoteTrue, Grows, SessionsGrow;
      GrowsAlways(remote.target);
      SessionsGrowAlways();
      for attempt := 0 to MAX_ATTEMPTS
        invariant Went() && remote.trace == old(remote.trace)
        invariant remote.troubles == old(remote.troubles).(head := HitchesMore(old(remote.troubles).head, attempt))
        invariant attempt == 0 ==>
                    remote.clock == old(remote.clock) && remote.HasBlob(digest) == old(remote.HasBlob(digest))
        invariant attempt > 0 ==> !Clear(remote.plan(old(remote.clock)))
        invariant old(remote.looks) <= remote.looks
        invariant attempt > 0 ==> LookedInVain(remote.looks, |remote.trace|)
      {
        var reply := remote.HeadBlob(digest);
        match reply
        case Response(status, _, _) =>
          if IsSuccess(status) { return Some(true); }
          if status == NOT_FOUND { return Some(false); }
          if status == UNAUTHORIZED {
            var ok := remote.RefreshToken();
            if !ok { return None; }
          } else if !IsTransient(status) { return None; }
        case Unreachable =>
        case Broken => return None;
      }
      return None;
    }

    method StartUpload() returns (r: Option<UploadPosition>)
      requires remote.Valid()
      modifies remote
      ensures remote.spoiled == old(remote.spoiled)
      ensures Uploading() && NoSends(remote.trace, |old(remote.trace)|)
      ensures r.Some? ==>
                r.value.offset == 0 && JustReported(remote.trace, r.value) && |old(remote.trace)| < |remote.trace|
      ensures var (was, now) := (old(remote.troubles), remote.troubles);
        && TroublesGrow(was, now) && now == was.(post := now.post, refused := now.refused)
        && (r.None? ==> GaveUp(was.post, now.post) || was.refused < now.refused)
      ensures OnlyStarted(remote.trace, |old(remote.trace)|)
    {
      hide Remote.Valid, RemoteTrue, Grows, SessionsGrow;
      GrowsAlways(remote.target);
      SessionsGrowAlways();
      for attempt := 0 to MAX_ATTEMPTS
        invariant Uploading() && NoSends(remote.trace, |old(remote.trace)|) && remote.spoiled == old(remote.spoiled)
        invariant OnlyStarted(remote.trace, |old(remote.trace)|)
        invariant remote.troubles == old(remote.troubles).(post := HitchesMore(old(remote.troubles).post, attempt))
      {
        var reply := remote.PostUpload();
        match reply
        case Response(status, _, _) =>
          if status in {ACCEPTED, CREATED} { return PositionOf(reply, 0); }
          if status == UNAUTHORIZED {
            var ok := remote.RefreshToken();
            if !ok { return None; }
          } else if !IsTransient(status) { return None; }
        case Unreachable =>
        case Broken => return None;
      }
      return None;
    }

    method UploadStatus(location: string) returns (r: Option<UploadPosition>)
      requires remote.Valid()
      modifies remote
      ensures remote.spoiled == old(remote.spoiled)
      ensures Uploading() && NoSends(remote.trace, |old(remote.trace)|)
      ensures r.Some? ==> JustReported(remote.trace, r.value) && |old(remote.trace)| < |remote.trace|
      ensures |old(remote.trace)| < |remote.trace| <= |old(remote.trace)| + MAX_ATTEMPTS
      ensures OnlyAsked(remote.trace, |old(remote.trace)|)
      ensures forall i :: |old(remote.trace)| <= i < |remote.trace| && Reports(remote.trace[i]).Some? ==>
                i == |remote.trace| - 1 && r.Some?
      ensures AllAt(remote.trace, |old(remote.trace)|, location)
      ensures r.Some? ==> r.value.location == location
      ensures var (was, now) := (old(remote.troubles), remote.troubles);
        && TroublesGrow(was, now) && now == was.(get := now.get, refused := now.refused)
        && (r.None? ==> GaveUp(was.get, now.get) || was.refused < now.refused)
    {
      hide Remote.Valid, RemoteTrue, Grows, SessionsGrow, NoSends, AllAt, OnlyAsked, Asking, Reports, JustReported,
            StatusOffset;
      GrowsAlways(remote.target);
      SessionsGrowAlways();
      AskingBegins(remote.trace, location);
      for attempt := 0 to MAX_ATTEMPTS
        invariant Uploading() && remote.spoiled == old(remote.spoiled)
        invariant |remote.trace| == |old(remote.trace)| + attempt
        invariant Asking(remote.trace, |old(remote.trace)|, location, 0)
        invariant remote.troubles == old(remote.troubles).(get := HitchesMore(old(remote.troubles).get, attempt))
      {
        ghost var before := remote.trace;
        var reply := remote.GetUpload(location);
        AskedOnRecord(before, |old(remote.trace)|, location, reply);
        match reply
        case Response(status, _, range) =>
          if IsSuccess(status) {
            var offset := StatusOffset(range);
            r := if offset.None? then None else PositionOf(reply, offset.value);
            AskingEnds(remote.trace, |old(remote.trace)|, location, r);
            return;
          }
          if status == UNAUTHORIZED {
            var ok := remote.RefreshToken();
            if !ok { break; }
          } else if !IsTransient(status) { break; }
        case Unreachable =>
        case Broken => break;
      }
      r := None;
      AskingEnds(remote.trace, |old(remote.trace)|, location, r);
    }

    /** Between two attempts to send a chunk: a new token, or the status of the session. */
    method AfterHitch(location: string, reply: Reply) returns (again: bool, r: Option<UploadPosition>)
      requires remote.Valid() && IsHitch(reply)
      modifies remote
      ensures remote.spoiled == old(remote.spoiled)
      ensures Uploading() && NoSends(remote.trace, |old(remote.trace)|)
      ensures AllAt(remote.trace, |old(remote.trace)|, location) && OnlyAsked(remote.trace, |old(remote.trace)|)
      ensures IsUncertain(reply) ==> |old(remote.trace)| < |remote.trace|
      ensures r.Some? ==> JustReported(remote.trace, r.value) && r.value.location == location
      ensures forall i :: |old(remote.trace)| <= i < |remote.trace| && Reports(remote.trace[i]).Some? ==>
                i == |remote.trace| - 1 && r.Some?
      ensures var (was, now) := (old(remote.troubles), remote.troubles);
        && TroublesGrow(was, now) && now == was.(get := now.get, refused := now.refused)
        && (!again ==> r.None? && was.refused < now.refused)
    {
      hide Remote.Valid, RemoteTrue, Grows, SessionsGrow, Reports, NoSends, AllAt, OnlyAsked, JustReported;
      again, r := true, None;
      if reply.Response? && reply.status == UNAUTHORIZED {
        again := remote.RefreshToken();
        AskingBegins(remote.trace, location);
        AskingEnds(remote.trace, |remote.trace|, location, None);
      } else {
        r := UploadStatus(location);
      }
    }

    /** `patch_upload`: one chunk; a status query before each retry keeps it from being sent again in vain. */
    method PatchUpload(location: string, offset: nat, bytes: Bytes) returns (r: Option<UploadPosition>)
      requires remote.Valid() && bytes != [] && location in remote.sessions
      modifies remote
      ensures Uploading()
      ensures Sending(remote.trace, |old(remote.trace)|, location, Protocol.PatchMessage(offset, bytes), 1,
                      offset + |bytes|)
      ensures r.Some? ==> JustReported(remote.trace, r.value) && r.value.location == location
      ensures old(Allows(location, Protocol.PatchMessage(offset, bytes))) ==> remote.spoiled == old(remote.spoiled)
      ensures r.Some? ==> PatchedAt(remote.trace, |old(remote.trace)|, offset)
      ensures PatchTroubles(old(remote.troubles), remote.troubles, r.None?)
      ensures AsksAgain(remote.trace, |old(remote.trace)|)
    {
      hide Remote.Valid, RemoteTrue, Grows, SessionsGrow, PatchTroubles, PatchHitches, TroublesGrow, GaveUp,
            Protocol.Allowed, Reports, Sending, JustReported, PatchedAt, NoSends, AllAt, OnlyAsked, AsksAgain,
            ParseRangeOffset;
      GrowsAlways(remote.target);
      SessionsGrowAlways();
      ghost var m := Protocol.PatchMessage(offset, bytes);
      ghost var limit := offset + |bytes|;
      ghost var from, start := |remote.trace|, remote.troubles;
      NothingSent(remote.trace, location, m, limit);
      NoHitches(start);
      r := None;
      for attempt := 0 to MAX_ATTEMPTS
        invariant Uploading() && r.None?
        invariant Sending(remote.trace, from, location, m, 0, limit)
        invariant old(Allows(location, m)) ==> remote.spoiled == old(remote.spoiled)
        invariant AsksAgain(remote.trace, from)
        invariant PatchHitches(start, remote.troubles, attempt)
        invariant attempt == MAX_ATTEMPTS ==> PatchTroubles(start, remote.troubles, true)
      {
        StillAllowed(old(remote.sessions), remote.sessions, location, remote.purpose(location), m);
        ghost var unsent := remote.trace;
        var reply := SendChunk(location, offset, bytes, from, start, attempt);
        if !IsUncertain(reply) { NothingToAsk(unsent, remote.trace, from, location, m, reply); }
        if reply.Response? && reply.status == ACCEPTED {
          if reply.range.None? { break; }
          var acknowledged := ParseRangeOffset(reply.range.value);
          if acknowledged.None? { break; }
          r := PositionOf(reply, acknowledged.value);
          break;
        }
        if !IsHitch(reply) { break; }
        ghost var before, was := remote.trace, remote.troubles;
        var again, position := AfterHitch(location, reply);
        QueryOnRecord(before, remote.trace, from, location, m, position, limit);
        AsksOn(unsent, before, remote.trace, from, location, m, reply);
        AskedBetween(start, was, remote.troubles, attempt + 1);
        if !again { break; }
        if position.Some? && position.value.offset >= offset + |bytes| {
          r := position;
          break;
        }
        if attempt + 1 == MAX_ATTEMPTS { NoMoreAttempts(start, remote.troubles); }
      }
      if r.None? { Settled(remote.trace, from, location, m, limit); }
    }

    /** One attempt of `patch_upload`. */
    method SendChunk(location: string, offset: nat, bytes: Bytes, ghost from: nat, ghost start: Troubles,
                     ghost attempts: nat)
        returns (reply: Reply)
      requires remote.Valid() && bytes != [] && location in remote.sessions && from <= |remote.trace|
      requires Sending(remote.trace, from, location, Protocol.PatchMessage(offset, bytes), 0, offset + |bytes|)
      requires PatchHitches(start, remote.troubles, attempts)
      modifies remote
      ensures Uploading()
      ensures old(Allows(location, Protocol.PatchMessage(offset, bytes))) ==> remote.spoiled == old(remote.spoiled)
      ensures reply.Response? && reply.status == ACCEPTED ==> reply.location == Some(location)
      ensures remote.trace == old(remote.trace) + [Patched(location, Protocol.PatchMessage(offset, bytes), reply)]
      ensures PatchTroubles(start, remote.troubles, !Accepted(reply) && !IsHitch(reply))
      ensures !Accepted(reply) && IsHitch(reply) ==> PatchHitches(start, remote.troubles, attempts + 1)
      ensures var (trace, m, limit) := (remote.trace, Protocol.PatchMessage(offset, bytes), offset + |bytes|);
        && Sending(trace, from, location, m, 1, limit) && PatchedAt(trace, from, offset)
        && (Accepted(reply) ==>
              JustReported(trace, UploadPosition(location, ParseRangeOffset(reply.range.value).value)))
        && (!Accepted(reply) ==> Sending(trace, from, location, m, 0, limit))
    {
      hide Remote.Valid, RemoteTrue, Grows, SessionsGrow, PatchTroubles, PatchHitches, TroublesGrow, GaveUp,
            Protocol.Allowed, Reports, Sending, JustReported, PatchedAt, ParseRangeOffset, Flat, Remote.Takes, Clear,
            Counted, Pair, HeaderOf;
      var end := offset + |bytes| - 1;
      var m := Protocol.PatchMessage(offset, bytes);
      ghost var before, was := remote.trace, remote.troubles;
      HeaderIs(m, Some(Pair(offset, end)));
      reply := remote.PatchUpload(location, Pair(offset, end), m);
      PatchOnRecord(before, from, location, m, reply, offset + |bytes|);
      PatchCounted(start, was, remote.troubles, attempts, reply);
    }

    /** `complete_upload`: told of a failure, the client asks whether the blob is there all the same. */
    method CompleteUpload(location: string, offset: nat, digest: Digest, bytes: Bytes) returns (ok: bool)
      requires remote.Valid() && location in remote.sessions
      modifies remote
      ensures Uploading()
      ensures Completions(remote.trace, |old(remote.trace)|, location, Protocol.PutMessage(offset, bytes), digest)
      ensures |old(remote.trace)| < |remote.trace|
      ensures old(Allows(location, Protocol.PutMessage(offset, bytes))) ==> remote.spoiled == old(remote.spoiled)
      ensures ok ==> remote.HasBlob(digest)
      ensures PutTroubles(old(remote.troubles), remote.troubles, !ok)
      ensures !ok ==> LooksAgain(remote.trace, remote.looks, |old(remote.trace)|)
    {
      hide Remote.Valid, RemoteTrue, Grows, SessionsGrow, PutTroubles, PutHitches, TroublesGrow, GaveUp, Completions,
            Protocol.Allowed, Remote.HasBlob, LooksAgain, LookedInVain;
      GrowsAlways(remote.target);
      SessionsGrowAlways();
      NoCompletions(remote.trace, location, digest);
      ghost var from, start := |remote.trace|, remote.troubles;
      ghost var m := Protocol.PutMessage(offset, bytes);
      NoPuts(start);
      NoLooks(remote.trace, remote.looks);
      ok := false;
      for attempt := 0 to MAX_ATTEMPTS
        invariant Uploading() && !ok
        invariant Completions(remote.trace, from, location, m, digest)
        invariant attempt > 0 ==> from < |remote.trace|
        invariant old(Allows(location, m)) ==> remote.spoiled == old(remote.spoiled)
        invariant LooksAgain(remote.trace, remote.looks, from)
        invariant PutHitches(start, remote.troubles, attempt)
        invariant attempt == MAX_ATTEMPTS ==> PutTroubles(start, remote.troubles, true)
      {
        StillAllowed(old(remote.sessions), remote.sessions, location, remote.purpose(location), m);
        ghost var before, looks := remote.trace, remote.looks;
        var reply := SendRest(location, offset, digest, bytes, from, start, attempt);
        ghost var e := Completed(location, m, digest, reply);
        if Created(reply) {
          ok := true;
          break;
        }
        if reply.Broken? {
          LooksOn(before, looks, remote.trace, looks, from, e);
          break;
        }
        ghost var was := remote.troubles;
        var again, present := AfterPut(digest, reply);
        ProbedBetween(start, was, remote.troubles, attempt + 1);
        if present {
          ok := true;
          break;
        }
        LooksOn(before, looks, remote.trace, remote.looks, from, e);
        if !again { break; }
        if attempt + 1 == MAX_ATTEMPTS { NoMorePuts(start, remote.troubles); }
      }
    }

    /** After a PUT that was not answered with success: a new token, or a look whether the blob is there. */
    method AfterPut(digest: Digest, reply: Reply) returns (again: bool, present: bool)
      requires remote.Valid() && !Created(reply) && !reply.Broken?
      modifies remote`clock, remote`state, remote`sessions, remote`runs, remote`troubles, remote`looks
      ensures Went()
      ensures old(remote.looks) <= remote.looks
      ensures present ==> remote.HasBlob(digest)
      ensures MayHaveLanded(reply) && !present ==> LookedInVain(remote.looks, |remote.trace|)
      ensures TroublesGrow(old(remote.troubles), remote.troubles)
      ensures var (was, now) := (old(remote.troubles), remote.troubles);
        && now == was.(head := now.head, refused := now.refused)
        && if again then IsHitch(reply) else !IsHitch(reply) || was.refused < now.refused
    {
      hide Remote.Valid, RemoteTrue, Grows, SessionsGrow, LookedInVain, GaveUp, Clear, Remote.HasBlob;
      present := false;
      if reply.Response? && reply.status == UNAUTHORIZED {
        again := remote.RefreshToken();
      } else {
        var there := BlobExists(digest);
        present := there == Some(true);
        again := IsHitch(reply);
      }
    }

    /** One attempt of `complete_upload`. */
    method SendRest(location: string, offset: nat, digest: Digest, bytes: Bytes, ghost from: nat,
                    ghost start: Troubles, ghost attempts: nat)
        returns (reply: Reply)
      requires remote.Valid() && location in remote.sessions && from <= |remote.trace|
      requires Completions(remote.trace, from, location, Protocol.PutMessage(offset, bytes), digest)
      requires PutHitches(start, remote.troubles, attempts)
      modifies remote
      ensures Uploading() && remote.looks == old(remote.looks)
      ensures remote.trace
              == old(remote.trace) + [Completed(location, Protocol.PutMessage(offset, bytes), digest, reply)]
      ensures old(Allows(location, Protocol.PutMessage(offset, bytes))) ==> remote.spoiled == old(remote.spoiled)
      ensures Created(reply) ==> remote.HasBlob(digest)
      ensures Completions(remote.trace, from, location, Protocol.PutMessage(offset, bytes), digest)
      ensures PutTroubles(start, remote.troubles, !Created(reply) && !IsHitch(reply))
      ensures !Created(reply) && IsHitch(reply) ==> PutHitches(start, remote.troubles, attempts + 1)
    {
      hide Remote.Valid, RemoteTrue, Grows, SessionsGrow, PutTroubles, PutHitches, TroublesGrow, GaveUp, Completions,
            Protocol.Allowed, Flat, Remote.Takes, Clear, Counted, Pair, HeaderOf, Remote.HasBlob, NoClash, FreshKey;
      var m := Protocol.PutMessage(offset, bytes);
      var header := if bytes == [] then None else Some(Pair(offset, offset + |bytes| - 1));
      ghost var before, was := remote.trace, remote.troubles;
      HeaderIs(m, header);
      reply := remote.PutUpload(location, header, m, digest);
      OneCompletion(before, from, location, m, digest, reply);
      PutCounted(start, was, remote.troubles, attempts, reply);
    }

    /** After a report, the session is there, and the next cut of the file is allowed. */
    lemma SendMayFollow(blob: Walk.BlobFile, file: Bytes, position: UploadPosition, m: Protocol.Message)
      requires remote.Valid() && JustReported(remote.trace, position) && m.start == position.offset
      requires blob.size <= |file| ==> Protocol.CutFrom(file[..blob.size], CHUNK_SIZE, m)
      ensures position.location in remote.sessions
      ensures IsFor(blob, file, remote.purpose(position.location)) ==> Allows(position.location, m)
    {
      hide StateTrue, SessionsTrue, TraceTrue, JustReported, IsFor, Protocol.CutFrom, Protocol.Allowed;
      ReportedIsAcked(remote.sessions, remote.trace, position);
      if IsFor(blob, file, remote.purpose(position.location)) {
        CutIsAllowed(blob, file, remote.purpose(position.location), remote.sessions[position.location].acks, m);
      }
    }

    /**
     `upload_blob` from the point where the position is known. Nothing but that position, as the
     server reported it, decides what is sent.
     */
    method Transfer(blob: Walk.BlobFile, file: Bytes, start: UploadPosition, resume: ResumeStore, key: string)
        returns (ok: bool)
      requires remote.Valid() && resume.Valid()
      requires JustReported(remote.trace, start) && start.offset <= blob.size
      modifies remote, resume
      ensures Uploading() && resume.Valid() && TroublesGrow(old(remote.troubles), remote.troubles)
      ensures OnlyAt(key, old(resume.uploads), resume.uploads)
      ensures ok ==> key !in resume.uploads
      ensures Kept(remote.trace, file, blob.size, |old(remote.trace)|, start)
      ensures IsFor(blob, file, remote.purpose(start.location)) ==> remote.spoiled == old(remote.spoiled)
      ensures ok || key !in resume.uploads ==>
        remote.HasBlob(blob.digest) && AllSent(remote.trace, |old(remote.trace)|, start.offset, blob.size)
      ensures key in resume.uploads ==>
        Reached(remote.trace, blob.size, |old(remote.trace)|, start, resume.uploads[key])
      ensures !ok ==>
        || Troubled(old(remote.troubles), remote.troubles) || resume.disk(resume.writes) || |file| < blob.size
        || OtherOffset(remote.trace, resume.uploads, key)
    {
      hide Remote.Valid, RemoteTrue, Grows, SessionsGrow, Going, Kept, JustReported, Sending, PatchedAt, Allows, IsFor,
            Protocol.CutFrom, ReadExact, Reached, Troubled, TroublesGrow, PatchTroubles, OtherOffset, AllSent, OnlyAt;
      GrowsAlways(remote.target);
      SessionsGrowAlways();
      TroublesGrowAlways();
      OnlyAtAlways(key);
      SetOnlyAt(key, resume.uploads, resume.uploads, ResumeEntry(start.location, start.offset));
      ghost var base := |remote.trace|;
      ghost var n := 0;
      GoingBegins(remote.trace, file, blob.size, start);
      GoingIsKept(remote.trace, file, blob.size, base, start, start, n);
      ok := resume.Set(key, ResumeEntry(start.location, start.offset));
      if !ok { return; }
      var position := start;
      while blob.size - position.offset >= CHUNK_SIZE
        invariant Uploading() && resume.Valid() && TroublesGrow(old(remote.troubles), remote.troubles)
        invariant OnlyAt(key, old(resume.uploads), resume.uploads)
        invariant key in resume.uploads && resume.uploads[key] == ResumeEntry(position.location, position.offset)
        invariant position.offset <= blob.size && position.location == start.location
        invariant IsFor(blob, file, remote.purpose(start.location)) ==> remote.spoiled == old(remote.spoiled)
        invariant Going(remote.trace, file, blob.size, base, start, position, n)
        decreases blob.size - position.offset
      {
        GoingReached(remote.trace, file, blob.size, base, start, position, n);
        GoingIsKept(remote.trace, file, blob.size, base, start, position, n);
        var buffer := ReadExact(file, position.offset, CHUNK_SIZE);
        if buffer.None? {
          ShortFile(file, position.offset, CHUNK_SIZE);
          return false;
        }
        var expected := position.offset + CHUNK_SIZE;
        ghost var before, was := remote.trace, remote.troubles;
        ghost var m := Protocol.PatchMessage(position.offset, buffer.value);
        ChunkIsCut(file, blob.size, m);
        SendMayFollow(blob, file, position, m);
        var next := PatchUpload(position.location, position.offset, buffer.value);
        PatchIsTrouble(was, remote.troubles, next.None?);
        ChunkGoesOn(before, remote.trace, file, blob.size, base, start, position, n, m, next);
        if next.None? { return false; }
        if next.value.offset != expected {
          OffsetDiffers(remote.trace, resume.uploads, key, next.value);
          return false;
        }
        position := next.value;
        n := n + 1;
        GoingReached(remote.trace, file, blob.size, base, start, position, n);
        SetOnlyAt(key, old(resume.uploads), resume.uploads, ResumeEntry(position.location, position.offset));
        ok := resume.Set(key, ResumeEntry(position.location, position.offset));
        if !ok { return; }
      }
      ok := Finish(blob, file, position, resume, key, start, base, n);
    }

    /** The end of `upload_blob`: what is left, which is less than a chunk, goes out with the final PUT. */
    method Finish(blob: Walk.BlobFile, file: Bytes, position: UploadPosition, resume: ResumeStore, key: string,
                  ghost start: UploadPosition, ghost base: nat, ghost n: nat) returns (ok: bool)
      requires remote.Valid() && resume.Valid()
      requires position.offset <= blob.size < position.offset + CHUNK_SIZE && position.location == start.location
      requires Going(remote.trace, file, blob.size, base, start, position, n)
      requires key in resume.uploads && resume.uploads[key] == ResumeEntry(position.location, position.offset)
      modifies remote, resume
      ensures Uploading() && resume.Valid() && TroublesGrow(old(remote.troubles), remote.troubles)
      ensures OnlyAt(key, old(resume.uploads), resume.uploads)
      ensures ok ==> key !in resume.uploads
      ensures Kept(remote.trace, file, blob.size, base, start)
      ensures IsFor(blob, file, remote.purpose(start.location)) ==> remote.spoiled == old(remote.spoiled)
      ensures ok || key !in resume.uploads ==>
        remote.HasBlob(blob.digest) && AllSent(remote.trace, base, start.offset, blob.size)
      ensures key in resume.uploads ==> Reached(remote.trace, blob.size, base, start, resume.uploads[key])
      ensures !ok ==>
        Troubled(old(remote.troubles), remote.troubles) || resume.disk(resume.writes) || |file| < blob.size
    {
      hide Remote.Valid, RemoteTrue, Grows, SessionsGrow, Going, Kept, AllSent, JustReported, Completions, Allows,
            IsFor, Protocol.CutFrom, ReadExact, Reached, Troubled, TroublesGrow, PutTroubles, Progress;
      GrowsAlways(remote.target);
      SessionsGrowAlways();
      TroublesGrowAlways();
      ok := false;
      GoingReached(remote.trace, file, blob.size, base, start, position, n);
      GoingIsKept(remote.trace, file, blob.size, base, start, position, n);
      var remainder := blob.size - position.offset;
      var finalBytes: Option<Bytes> := if remainder == 0 then Some([]) else ReadExact(file, position.offset, remainder);
      if finalBytes.None? {
        ShortFile(file, position.offset, remainder);
        return;
      }
      ghost var before, was := remote.trace, remote.troubles;
      ghost var m := Protocol.PutMessage(position.offset, finalBytes.value);
      ChunkIsCut(file, blob.size, m);
      SendMayFollow(blob, file, position, m);
      ok := CompleteUpload(position.location, position.offset, blob.digest, finalBytes.value);
      PutIsTrouble(was, remote.troubles, !ok);
      CompletionsSend(remote.trace, |before|, position.location, m, blob.digest);
      RestReached(before, remote.trace, file, blob.size, base, start, position, n, m);
      FinalProgress(before, remote.trace, file, blob.size, base, start, position, n, m);
      if !ok { return; }
      ok := resume.Remove(key);
    }

    function ResumeKey(digest: Digest): string {
      registry + "/" + remote.target.repo + "@" + Digests.Print(digest)
    }

    /** The beginning of `upload_blob`: the session remembered, if it answers as it should, or a new one. */
    method ResumeOrStart(blob: Walk.BlobFile, resume: ResumeStore, key: string) returns (r: Option<UploadPosition>)
      requires remote.Valid() && resume.Valid()
      modifies remote, resume
      ensures Uploading() && resume.Valid() && TroublesGrow(old(remote.troubles), remote.troubles)
      ensures NoSends(remote.trace, |old(remote.trace)|) && remote.spoiled == old(remote.spoiled)
      ensures resume.uploads - {key} == old(resume.uploads) - {key}
      ensures Resumes(remote.trace, |old(remote.trace)|, |remote.trace|, Lookup(old(resume.uploads), key), blob.size)
      ensures r.Some? ==>
        && JustReported(remote.trace, r.value) && |old(remote.trace)| < |remote.trace|
        && r.value.offset <= blob.size && r.value.offset % CHUNK_SIZE == 0
      ensures r.None? ==> Troubled(old(remote.troubles), remote.troubles) || resume.disk(resume.writes)
    {
      hide Remote.Valid, RemoteTrue, Grows, SessionsGrow, Reports, Troubled, TroublesGrow, Resumes, JustReported,
            NoSends, AllAt, OnlyAsked, OnlyStarted, NothingOpened, NothingUsable, Usable, GaveUp;
      GrowsAlways(remote.target);
      SessionsGrowAlways();
      TroublesGrowAlways();
      ghost var from := |remote.trace|;
      var saved := resume.Get(key);
      NothingAsked(remote.trace, saved, blob.size);
      if saved.Some? {
        r := UploadStatus(saved.value.location);
        AnswerDecides(remote.trace, from, saved.value, blob.size, r);
        if r.Some? && r.value.offset <= blob.size && r.value.offset % CHUNK_SIZE == 0 {
          return;
        }
        var ok := resume.Remove(key);
        if !ok { return None; }
      }
      ghost var before, was := remote.trace, remote.troubles;
      r := StartUpload();
      StartIsTrouble(was, remote.troubles, r.None?);
      OpeningDecides(before, remote.trace, from, saved, blob.size);
    }

    /** `upload_blob`. The resume file may be as stale as it likes: only where to ask is taken from it. */
    method UploadBlob(blob: Walk.BlobFile, file: Bytes, resume: ResumeStore)
        returns (ok: bool, ghost base: nat, ghost start: Option<UploadPosition>)
      requires remote.Valid() && resume.Valid()
      modifies remote, resume
      ensures Uploading() && resume.Valid() && TroublesGrow(old(remote.troubles), remote.troubles)
      ensures var key := ResumeKey(blob.digest);
              resume.uploads - {key} == old(resume.uploads) - {key} && (ok ==> key !in resume.uploads)
      ensures start.None? ==> NoSends(remote.trace, |old(remote.trace)|) && remote.spoiled == old(remote.spoiled)
      ensures start.Some? ==>
        && Uploaded(remote.trace, |old(remote.trace)|, base, blob, file, start.value, ok)
        && (IsFor(blob, file, remote.purpose(start.value.location)) ==>
              && remote.spoiled == old(remote.spoiled)
              && (start.value.location !in remote.spoiled ==> FollowsProtocol(remote, base, start.value.location)))
      ensures ok ==> remote.HasBlob(blob.digest)
      ensures var saved := Lookup(old(resume.uploads), ResumeKey(blob.digest));
              Resumes(remote.trace, |old(remote.trace)|, base, saved, blob.size)
      ensures var key := ResumeKey(blob.digest);
        start.Some? && !ok ==>
          if key in resume.uploads then Reached(remote.trace, blob.size, base, start.value, resume.uploads[key])
          else remote.HasBlob(blob.digest)
      ensures !ok ==>
        || Troubled(old(remote.troubles), remote.troubles) || resume.disk(resume.writes) || |file| < blob.size
        || OtherOffset(remote.trace, resume.uploads, ResumeKey(blob.digest))
      ensures Clear(remote.plan(old(remote.clock))) && old(remote.HasBlob(blob.digest)) ==>
        start.None? && remote.trace == old(remote.trace)
    {
      hide Remote.Valid, RemoteTrue, Grows, SessionsGrow, Reports, Kept, AllSent, IsFor, ResumeKey, FollowsProtocol,
            Troubled, TroublesGrow, Reached, OtherOffset, Resumes, Clear, Remote.HasBlob;
      GrowsAlways(remote.target);
      SessionsGrowAlways();
      TroublesGrowAlways();
      ghost var from := |remote.trace|;
      base, start := from, None;
      var key := ResumeKey(blob.digest);
      ghost var saved := Lookup(resume.uploads, key);
      var present := BlobExists(blob.digest);
      ExistsIsTrouble(old(remote.troubles), remote.troubles, present.None?);
      NothingAsked(remote.trace, saved, blob.size);
      if present.None? { return false, base, start; }
      if present.value {
        ok := resume.Remove(key);
        return;
      }
      var position := ResumeOrStart(blob, resume, key);
      base, start := |remote.trace|, position;
      if position.None? { return false, base, start; }
      ghost var before := remote.trace;
      ok := Transfer(blob, file, position.value, resume, key);
      KeptIsAt(remote.trace, file, blob.size, base, position.value);
      ResumesStays(before, remote.trace, from, saved, blob.size, position.value.location);
      SendsFollowProtocol(remote, from, base, blob, file, position.value, ok);
    }

    /** `put_manifest`. */
    method PutManifest(reference: string, m: Walk.ManifestObject) returns (ok: bool)
      requires remote.Valid()
      requires reference == remote.target.reference ==> remote.env.codec.hash(m.bytes) == remote.target.root
      modifies remote`clock, remote`state, remote`sessions, remote`runs, remote`pushes, remote`troubles
      ensures Went()
      ensures ok ==>
        var digest := remote.env.codec.hash(m.bytes);
        && (remote.target.repo, digest) in remote.state.db.live && digest in remote.state.db.manifests
        && (Digests.Parse(reference).Err? ==>
            Lookup(remote.state.db.tags, (remote.target.repo, reference)) == Some(digest))
      ensures old(remote.pushes) <= remote.pushes
      ensures forall e :: |old(remote.pushes)| <= e < |remote.pushes| ==>
                HandledAs(remote.env, remote.target, old(remote.state), reference, m, remote.pushes[e])
      ensures var (was, now) := (old(remote.troubles), remote.troubles);
        && TroublesGrow(was, now) && now == was.(manifest := now.manifest, refused := now.refused)
        && (!ok ==> GaveUp(was.manifest, now.manifest) || was.refused < now.refused)
    {
      hide Remote.Valid, RemoteTrue, Grows, SessionsGrow, PushRefusal, Digests.Parse, Clear, StateTrue;
      GrowsAlways(remote.target);
      SessionsGrowAlways();
      ok := false;
      for attempt := 0 to MAX_ATTEMPTS
        invariant Went() && !ok && old(remote.pushes) <= remote.pushes
        invariant var was := old(remote.troubles);
          remote.troubles == was.(manifest := HitchesMore(was.manifest, attempt))
        invariant forall e :: |old(remote.pushes)| <= e < |remote.pushes| ==>
                    HandledAs(remote.env, remote.target, old(remote.state), reference, m, remote.pushes[e])
      {
        var reply, at := remote.PutManifest(reference, m.mediaType, m.bytes);
        match reply
        case Response(status, _, _) =>
          if status == CREATED { return true; }
          if status == UNAUTHORIZED {
            var refreshed := remote.RefreshToken();
            if !refreshed { return; }
          } else if !IsTransient(status) { return; }
        case Unreachable =>
        case Broken => return;
      }
    }

    /** The upload loop of `push`, in whatever order the uploads get their turn. */
    method PushBlobs(image: Walk.PreparedImage, files: Walk.Layout, resume: ResumeStore) returns (ok: bool)
      requires remote.Valid() && resume.Valid()
      requires Walk.Prepared(remote.env.codec, files, image)
      modifies remote, resume
      ensures Uploading() && resume.Valid()
      ensures ok ==> BlobsThere(remote.state, remote.target.repo, image.blobs)
      ensures TroublesGrow(old(remote.troubles), remote.troubles)
      ensures !ok ==>
        || Troubled(old(remote.troubles), remote.troubles) || resume.disk(resume.writes)
        || exists k :: 0 <= k < |image.blobs|
             && OtherOffset(remote.trace, resume.uploads, ResumeKey(image.blobs[k].digest))
    {
      hide Remote.Valid, RemoteTrue, Grows, SessionsGrow, Walk.Prepared, Uploaded, IsFor, BlobsThere, NoSends, Clear,
            Troubled, TroublesGrow, Resumes, OtherOffset, ResumeKey, Reached, FollowsProtocol;
      GrowsAlways(remote.target);
      SessionsGrowAlways();
      TroublesGrowAlways();
      NoBlobs(remote.state, remote.target.repo, image.blobs[..0]);
      for k := 0 to |image.blobs|
        invariant Uploading() && resume.Valid() && TroublesGrow(old(remote.troubles), remote.troubles)
        invariant BlobsThere(remote.state, remote.target.repo, image.blobs[..k])
      {
        ghost var before := remote.state;
        var blob := image.blobs[k];
        BlobHasFile(remote.env.codec, files, image, k);
        var uploaded, _, _ := UploadBlob(blob, files[blob.digest], resume);
        if !uploaded { return false; }
        OneMoreBlob(before, remote.state, remote.target, image.blobs, k);
      }
      assert image.blobs[..|image.blobs|] == image.blobs;
      return true;
    }

    /** One turn of the manifest loop of `push`: the root goes under the reference asked for, the others by digest. */
    method PushNext(image: Walk.PreparedImage, files: Walk.Layout, i: nat) returns (ok: bool)
      requires remote.Valid() && i < |image.manifests|
      requires remote.target.root == image.root
      requires Walk.Prepared(remote.env.codec, files, image) && remote.target.files == files
      requires Digests.Parse(remote.target.reference).Ok? ==> Digests.Parse(remote.target.reference).value == image.root
      requires BlobsThere(remote.state, remote.target.repo, image.blobs)
      requires ManifestsThere(remote.state, remote.target.repo, image.manifests, i)
      modifies remote`clock, remote`state, remote`sessions, remote`runs, remote`pushes, remote`troubles
      ensures Went() && old(remote.pushes) <= remote.pushes
      ensures forall e :: |old(remote.pushes)| <= e < |remote.pushes| ==>
                PushPasses(remote.env, image, remote.pushes[e])
      ensures TroublesGrow(old(remote.troubles), remote.troubles)
      ensures !ok ==> Troubled(old(remote.troubles), remote.troubles)
      ensures ok ==> ManifestsThere(remote.state, remote.target.repo, image.manifests, i + 1)
      ensures ok && i == |image.manifests| - 1 && Digests.Parse(remote.target.reference).Err? ==>
                Lookup(remote.state.db.tags, (remote.target.repo, remote.target.reference)) == Some(image.root)
    {
      hide Remote.Valid, RemoteTrue, Grows, SessionsGrow, Digests.Parse, BlobsThere, ManifestsThere, PushPasses,
            Walk.Prepared, Lookup, HandledAs, Troubled, TroublesGrow, GaveUp;
      GrowsAlways(remote.target);
      SessionsGrowAlways();
      var m := image.manifests[i];
      ghost var before := remote.state;
      ghost var pushed := remote.pushes;
      var reference := if m.digest == image.root then remote.target.reference else Digests.Print(m.digest);
      ReferenceNames(remote.env.codec, files, remote.target, image, i, reference);
      ok := PutManifest(reference, m);
      PushIsTrouble(old(remote.troubles), remote.troubles, !ok);
      forall e | |pushed| <= e < |remote.pushes|
        ensures PushPasses(remote.env, image, remote.pushes[e])
      {
        PushIsGood(remote.env, before, remote.target, files, image, i, reference, remote.pushes[e]);
      }
      if ok {
        ThereStays(before, remote.state, remote.target, image, i);
        OneMoreManifest(remote.state, remote.target.repo, image.manifests, i);
      }
    }

    /** The manifest loop of `push`. */
    method PushManifests(image: Walk.PreparedImage, files: Walk.Layout) returns (ok: bool)
      requires remote.Valid()
      requires remote.target.root == image.root
      requires Walk.Prepared(remote.env.codec, files, image) && remote.target.files == files
      requires Digests.Parse(remote.target.reference).Ok? ==> Digests.Parse(remote.target.reference).value == image.root
      requires BlobsThere(remote.state, remote.target.repo, image.blobs)
      modifies remote`clock, remote`state, remote`sessions, remote`runs, remote`pushes, remote`troubles
      ensures Went() && TroublesGrow(old(remote.troubles), remote.troubles)
      ensures !ok ==> Troubled(old(remote.troubles), remote.troubles)
      ensures BlobsThere(remote.state, remote.target.repo, image.blobs)
      ensures PushesPass(remote.env, image, remote.pushes, |old(remote.pushes)|)
      ensures ok ==>
        && ManifestsThere(remote.state, remote.target.repo, image.manifests, |image.manifests|)
        && (Digests.Parse(remote.target.reference).Err? ==>
              Lookup(remote.state.db.tags, (remote.target.repo, remote.target.reference)) == Some(image.root))
    {
      assert image.manifests != [];
      hide Remote.Valid, RemoteTrue, Grows, SessionsGrow, Digests.Parse, BlobsThere, ManifestsThere, PushPasses,
            Walk.Prepared, Lookup, Troubled, TroublesGrow;
      GrowsAlways(remote.target);
      SessionsGrowAlways();
      TroublesGrowAlways();
      FirstManifests(remote.state, remote.target.repo, image.manifests);
      for i := 0 to |image.manifests|
        invariant Went() && old(remote.pushes) <= remote.pushes
        invariant TroublesGrow(old(remote.troubles), remote.troubles)
        invariant BlobsThere(remote.state, remote.target.repo, image.blobs)
        invariant ManifestsThere(remote.state, remote.target.repo, image.manifests, i)
        invariant PushesPass(remote.env, image, remote.pushes, |old(remote.pushes)|)
        invariant i == |image.manifests| && Digests.Parse(remote.target.reference).Err? ==>
                    Lookup(remote.state.db.tags, (remote.target.repo, remote.target.reference)) == Some(image.root)
      {
        ghost var before := remote.state;
        ok := PushNext(image, files, i);
        BlobsStay(before, remote.state, remote.target, image.blobs);
        if !ok { return; }
      }
      ok := true;
    }

    /**
     `push`: the blobs, whatever their order, then the manifests, children first and the root under
     the reference asked for.
     */
    method Push(image: Walk.PreparedImage, files: Walk.Layout, resume: ResumeStore) returns (ok: bool)
      requires remote.Valid() && resume.Valid()
      requires remote.target.root == image.root
      requires Walk.Prepared(remote.env.codec, files, image) && remote.target.files == files
      modifies remote, resume
      ensures Went() && resume.Valid()
      ensures PushesPass(remote.env, image, remote.pushes, |old(remote.pushes)|)
      ensures ok ==> Pushes.Complete(remote.env, remote.state, remote.target, image)
      ensures !ok ==>
        || (Digests.Parse(remote.target.reference).Ok? && Digests.Parse(remote.target.reference).value != image.root)
        || Troubled(old(remote.troubles), remote.troubles) || resume.disk(resume.writes)
        || exists k :: 0 <= k < |image.blobs|
             && OtherOffset(remote.trace, resume.uploads, ResumeKey(image.blobs[k].digest))
    {
      hide Remote.Valid, RemoteTrue, Grows, SessionsGrow, Walk.Prepared, BlobsThere, ManifestsThere, Pushes.Complete,
            PushesPass, Troubled, TroublesGrow, OtherOffset, ResumeKey;
      GrowsAlways(remote.target);
      SessionsGrowAlways();
      TroublesGrowAlways();
      var reference := remote.target.reference;
      var named := Digests.Parse(reference);
      NothingPushed(remote.env, image, remote.pushes);
      if named.Ok? && named.value != image.root { return false; }
      hide Digests.Parse;
      ok := PushBlobs(image, files, resume);
      if !ok { return; }
      ok := PushManifests(image, files);
      if !ok { return; }
      RemoteIsTrue(remote);
      AllThereIsComplete(remote.env, remote.state, remote.target, files, image);
    }
  }

  lemma RemoteIsTrue(remote: Remote)
    requires remote.Valid()
    ensures Consistent(remote.env.codec.hash, remote.state.t)
    ensures SizesTrue(remote.env.codec.hash, remote.target.files, remote.state.t)
  {
    hide SessionsTrue, TraceTrue, Consistent, SizesTrue;
    StateParts(remote.env, remote.target, remote.state);
  }

  lemma NoBlobs(s: State, repo: Repo, blobs: seq<Walk.BlobFile>)
    requires blobs == []
    ensures BlobsThere(s, repo, blobs)
  {
  }

  lemma BlobHasFile(codec: Codec, files: Walk.Layout, image: Walk.PreparedImage, k: nat)
    requires Walk.Prepared(codec, files, image) && k < |image.blobs|
    ensures image.blobs[k].digest in files && |files[image.blobs[k].digest]| == image.blobs[k].size
  {
    hide Walk.PostOrder, Walk.Found, Walk.BlobFrom, Walk.Items;
    assert Walk.IsFile(codec, files, image.blobs[k].digest, image.blobs[k].size);
  }

  lemma OneMoreBlob(s: State, s': State, target: Target, blobs: seq<Walk.BlobFile>, k: nat)
    requires Grows(s, s', target) && k < |blobs| && BlobsThere(s, target.repo, blobs[..k])
    requires (target.repo, blobs[k].digest) in s'.t.links && IsLive(s'.t, blobs[k].digest)
    ensures BlobsThere(s', target.repo, blobs[..k + 1])
  {
    BlobsStay(s, s', target, blobs[..k]);
    assert blobs[..k + 1] == blobs[..k] + [blobs[k]];
  }

  lemma BlobsStay(s: State, s': State, target: Target, blobs: seq<Walk.BlobFile>)
    requires Grows(s, s', target) && BlobsThere(s, target.repo, blobs)
    ensures BlobsThere(s', target.repo, blobs)
  {
  }

  lemma FirstManifests(s: State, repo: Repo, ms: seq<Walk.ManifestObject>)
    ensures ManifestsThere(s, repo, ms, 0)
  {
  }

  lemma OneMoreManifest(s: State, repo: Repo, ms: seq<Walk.ManifestObject>, i: nat)
    requires i < |ms| && ManifestsThere(s, repo, ms, i)
    requires (repo, ms[i].digest) in s.db.live && ms[i].digest in s.db.manifests
    ensures ManifestsThere(s, repo, ms, i + 1)
  {
  }

  /** What the client calls a manifest: the root as it was asked to, the others by digest. */
  lemma ReferenceNames(codec: Codec, files: Walk.Layout, target: Target, image: Walk.PreparedImage, i: nat,
                       reference: string)
    requires Walk.Prepared(codec, files, image) && i < |image.manifests| && target.root == image.root
    requires Digests.Parse(target.reference).Ok? ==> Digests.Parse(target.reference).value == image.root
    requires var d := image.manifests[i].digest;
             reference == if d == image.root then target.reference else Digests.Print(d)
    ensures codec.hash(image.manifests[i].bytes) == image.manifests[i].digest
    ensures Digests.Parse(reference).Ok? ==> Digests.Parse(reference).value == image.manifests[i].digest
    ensures reference == target.reference ==> image.manifests[i].digest == target.root
    ensures i == |image.manifests| - 1 <==> image.manifests[i].digest == image.root
  {
    hide Walk.Items, Walk.Found, Walk.BlobFrom, Digests.Parse, Digests.Print;
    assert Walk.Sendable(codec, image.manifests[i]);
    Digests.ParseIffPrint(Digests.Print(image.manifests[i].digest), image.manifests[i].digest);
  }

  lemma PushIsGood(env: Env, before: State, target: Target, files: Walk.Layout, image: Walk.PreparedImage,
                   i: nat, reference: string, push: Push)
    requires Walk.Prepared(env.codec, files, image) && target.files == files
    requires i < |image.manifests| && ManifestsThere(before, target.repo, image.manifests, i)
    requires BlobsThere(before, target.repo, image.blobs)
    requires Digests.Parse(reference).Ok? ==> Digests.Parse(reference).value == image.manifests[i].digest
    requires HandledAs(env, target, before, reference, image.manifests[i], push)
    ensures PushPasses(env, image, push)
  {
    hide Walk.Prepared, Grows, SizesTrue, Consistent, ManifestsThere, BlobsThere, Digests.Parse, PushRefusal;
    var m := image.manifests[i];
    var at: State :| Grows(before, at, target) && StateTrue(env, target, at)
      && push == Push(reference, m.bytes, PushRefusal(env, at, target.repo, reference, Some(m.mediaType), m.bytes));
    ThereStays(before, at, target, image, i);
    PassesUnlessBadSubject(env, at, target, files, image, i, reference);
  }

  lemma NothingPushed(env: Env, image: Walk.PreparedImage, pushes: seq<Push>)
    ensures PushesPass(env, image, pushes, |pushes|)
  {
  }

  lemma SendsAreWhole(trace: seq<Event>, base: nat, p0: nat, i: nat)
    requires OnGrid(trace, base, p0) && p0 % CHUNK_SIZE == 0 && base <= i < |trace| && Sends(trace[i])
    ensures trace[i].message.start % CHUNK_SIZE == 0
  {
    var k: nat :| trace[i].message.start == p0 + k * CHUNK_SIZE;
  }

  lemma WholeChunks(offset: nat, start: nat)
    requires Protocol.IsWhole(offset, CHUNK_SIZE) && start % CHUNK_SIZE == 0 && offset < start + CHUNK_SIZE
    ensures offset <= start
  {
    var k: nat :| offset == k * CHUNK_SIZE;
    assert start == (start / CHUNK_SIZE) * CHUNK_SIZE;
  }

  /**
   What an upload sends to a session that is for its blob are steps of a run of module Protocol, so
   everything proved there covers it; and none of it is a byte whose acceptance had been reported to
   the client in this upload before.
   */
  lemma SendsFollowProtocol(remote: Remote, from: nat, base: nat, blob: Walk.BlobFile, file: Bytes,
                            start: UploadPosition, ok: bool)
    requires remote.Valid() && Uploaded(remote.trace, from, base, blob, file, start, ok)
    ensures IsFor(blob, file, remote.purpose(start.location)) && start.location !in remote.spoiled ==>
              FollowsProtocol(remote, base, start.location)
  {
    hide StateTrue, Protocol.Run, Uploads.Uniform, AllSent, Reports, Kept, EventTrue, IsFor;
    if IsFor(blob, file, remote.purpose(start.location)) && start.location !in remote.spoiled {
      RootOfTransfer(remote, base, start);
      forall i | base <= i < |remote.trace| && Sends(remote.trace[i])
        ensures remote.trace[i].message in remote.sessions[start.location].pool
        ensures forall j :: base <= j < i && Reports(remote.trace[j]).Some? ==>
                  Reports(remote.trace[j]).value.1 <= remote.trace[i].message.start
      {
        NothingReportedIsSent(remote, from, base, blob, file, start, ok, i);
      }
    }
  }

  lemma RootOfTransfer(remote: Remote, base: nat, start: UploadPosition)
    requires remote.Valid() && 0 < base <= |remote.trace|
    requires Reports(remote.trace[base - 1]) == Some((start.location, start.offset))
    ensures start.location in remote.sessions
  {
    hide StateTrue, SessionsTrue, Reports;
    assert EventTrue(remote.sessions, remote.trace[base - 1]);
  }

  /** One send of such an upload. */
  lemma NothingReportedIsSent(remote: Remote, from: nat, base: nat, blob: Walk.BlobFile, file: Bytes,
                                  start: UploadPosition, ok: bool, i: nat)
    requires remote.Valid() && Uploaded(remote.trace, from, base, blob, file, start, ok)
    requires IsFor(blob, file, remote.purpose(start.location)) && start.location !in remote.spoiled
    requires base <= i < |remote.trace| && Sends(remote.trace[i])
    ensures start.location in remote.runs
    ensures var w := Protocol.Run(remote.Cfg(start.location), remote.runs[start.location]);
      && remote.sessions[start.location] == w && remote.trace[i].message in w.pool
      && Protocol.Allowed(file, CHUNK_SIZE, w.acks, remote.trace[i].message)
    ensures forall j :: base <= j < i && Reports(remote.trace[j]).Some? ==>
              Reports(remote.trace[j]).value.1 <= remote.trace[i].message.start
  {
    hide StateTrue, Protocol.Run, Protocol.Inv, Protocol.Allowed, Uploads.Uniform, AllSent, Reports, OnGrid,
          Protocol.IsWhole;
    var l, trace := start.location, remote.trace;
    var cfg, steps := remote.Cfg(l), remote.runs[l];
    assert EventTrue(remote.sessions, trace[i]);
    Protocol.ExactlyOnce(cfg, steps, 0);
    Protocol.PoolIsAllowed(cfg, steps, trace[i].message);
    forall j | base <= j < i && Reports(trace[j]).Some?
      ensures Reports(trace[j]).value.1 <= trace[i].message.start
    {
      assert EventTrue(remote.sessions, trace[j]) && Fits(file, blob.size, trace, base, i);
      Protocol.ReportsAreWholeChunks(cfg, steps);
      SendsAreWhole(trace, base, start.offset, i);
      WholeChunks(Reports(trace[j]).value.1, trace[i].message.start);
    }
  }
}
