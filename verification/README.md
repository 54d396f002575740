# JCR, verified model

JCR is an OCI registry: a server, `jcrd`, that keeps blobs in an S3-style bucket and everything
else in a database, and a client, `jcr`, that pushes images to it. This project models the parts of
both on which the integrity of an image depends, and proves what they guarantee, separately and
together. The main results, by file:

- `Sessions`, `Uploads`: an upload session is a row of counters, a table of parts and a multipart
  upload in the bucket. Whatever bucket or database call fails, it behaves like a list of byte
  strings to which chunks are appended; the parts stay uniform and the counters cannot overflow.
- `Protocol`: chunked upload over a network that loses, repeats and reorders messages, with any
  number of clients. The accepted bytes are always a prefix of the blob, a final PUT gets through
  only with the whole blob, and the wrong-digest branch is never taken.
- `BlobTables`, `Lifecycle`: completions, mounts and the garbage collector, interleaved one
  transaction or bucket call at a time. A committed row always names an object with its digest and
  size, and no delete ever hits one. A completion also heals rows whose objects were lost. From any
  reachable state a PUT that gets through can be carried to a commit, and garbage to its end.
- `Registry`, `History`, `Server`: whole requests. The blobs of a live manifest never go away; the
  tag history replays to the tag table; protected tags stay; what a push, a delete or a collection
  changes is said row by row, and what is accepted exactly. `Server` is the code that works in place
  on tables and bucket, proved to do what the functions in `BlobTables` and `Registry` say, and that
  each of its requests is a step of the runs of `Registry`.
- `Pulls`, `Edges`, `Misreadings`: what a puller reads, what the edge table holds, and exactly when
  that is what the registry checked.
- `Manifests`, `Walk`, `Reachability`: parsing manifests, and the client's recursive walk over an OCI
  layout, which yields exactly the manifests reachable from the root, children first, and a verified
  inventory.
- `Wire`, `Network`, `Resume`, `Client`, `Pushes`: the client's loops against a registry that also
  serves others, with the upload sessions of `Protocol`, over a network that fails at will: where an
  interrupted upload goes on, what is sent, what is not sent again, what holds when `push` succeeds,
  and what must have gone wrong when it does not.
- `Ranges`, `References`, `Scopes`, `Digests`, `Usernames`, `Pagination`: parsers, printers,
  scanners and the tag listing.

Some properties are not true as one would first state them. They are stated with the condition
under which they hold, and with an input that shows why it is needed (`Examples` has the bodies and a
reader for them):

- A prepared image need not be accepted: the client does not look at the subject of a manifest, and
  the server refuses a subject of negative size. Exactly such manifests are refused by the
  dependency check (`Pushes.PassesUnlessBadSubject`, `Pushes.NegativeSubjectIsRefused`).
- What a puller parses need not be what the repository checked: one payload and one media type are
  kept per digest, so a body that does not name its own type can be an image in one repository and
  an index in another. After an accepted push the kinds agree exactly if the digest had no row, or
  its row reads as the kind that was pushed (`Pulls.PullAfterPush`, `Misreadings.UnnamedTypesMisread`).
- The edges of such a body need not be its descriptors: they are exactly if no accepted push read it
  as the other kind, with children (`Edges.EdgesAreDescriptors`, `Misreadings.UnnamedTypesMixEdges`).
- A walk that succeeds need not have verified everything under the root, nor taken all of it in: a
  digest met under two media types is visited once (`Misreadings.TwoTypesOneVisit` runs the walk on
  such an archive). It has verified everything exactly if every other reading that a descriptor of
  the image calls for is sound, and taken all in exactly if those readings lead to nothing outside
  (`Reachability.WalkIsSoundIff`, `Reachability.HoldsAllIffInside`).
- A scope survives printing and parsing exactly when its repository name is neither empty nor holds
  a colon (`Scopes.RoundTripIff`).

Where a result needs something of SHA-256, it asks it of the bytes at hand only. `Pulls` and `Edges`
need that no two bodies pushed in the run collide (`Pulls.NoCollisions`). A push needs that committed
rows with the digest of a file of the image have its size, at its start (`Wire.SizesTrue`) and for
the bytes that arrive meanwhile (`Wire.NoClash`, part of `Wire.Harmless`). Everything else holds
for any function from bytes to digests. The walk needs that no verified file leads back to itself
(`Walk.Acyclic`).

Modelling choices. The hash, the JSON reader, the decoding of one descriptor object and the matching
of a tag pattern are parameters. A network or database failure is a parameter of the call that may
suffer it. The reading of a session row together with the size of its last part is one step. Time
enters as `now` for sessions, and as the set of rows that are old enough for the collector; that age
is the age of the row, which neither a repeated upload nor a resurrection renews
(`crates/jcrd/src/registry.rs:1415-1421`). Client arithmetic is on unbounded numbers except where it
can wrap: `parse_range_offset` adds one modulo 2^64, as a release build does.

`dafny verify dfyconfig.toml` checks the project.

## Model

| member | source | states |
|---|---|---|
| Storage.Bucket.UploadPart | crates/jcrd/src/storage/bucket.rs:84-111 | a part number used again keeps the later bytes; a lost reply leaves the part stored |
| Storage.Bucket.CompleteUpload | crates/jcrd/src/storage/bucket.rs:113-140 | the object is the listed parts in listed order; wrong tags or an empty list change nothing |
| Storage.Bucket.AbortUpload | crates/jcrd/src/storage/bucket.rs:142-152 | drops the open parts and no finished object |
| Storage.HashStoredBlob | crates/jcrd/src/registry.rs:1342-1357 | digest and length of the whole object, however the stream is cut; fails only when absent, on I/O failure or past 2^63-1 bytes |
| Digests.ParseIffPrint | crates/jcr-core/src/digest.rs:47-90 | a text parses to a digest exactly when it is the digest's printed form |
| Digests.PrintAlphabet | crates/jcr-core/src/digest.rs:47-51 | a printed digest has a colon and neither slash nor at-sign, so references can tell it from a tag |
| Uploads.AcceptedIffUniform | crates/jcrd/src/registry.rs:547-563 | the size rule accepts a chunk exactly when the parts stay equal with a last one that is no larger |
| Uploads.PatchKeepsUniform | crates/jcrd/src/registry.rs:547-573 | no PATCH or PUT, accepted or not, breaks the uniform shape of the parts |
| Uploads.PatchAcceptedIff | crates/jcrd/src/registry.rs:535-573 | a PATCH is accepted exactly by an open, unexpired session, with at least one byte and no more than the limit, at the accepted offset, when the parts stay in shape; then it is appended |
| Uploads.PutAcceptedIff | crates/jcrd/src/registry.rs:620-663 | the same for a final PUT, which may bring no bytes; then the session is closed |
| Uploads.UniformOffset | crates/jcrd/src/registry.rs:1294-1310 | the offset is (n-1) times the first size plus the last size |
| Uploads.OffsetsFit | crates/jcrd/src/registry.rs:1505-1507 | with a chunk limit below 2^32 and 32-bit part numbers the 64-bit offset, plus one more chunk, never overflows |
| Sessions.StartUpload | crates/jcrd/src/registry.rs:443-483 | a new session is empty, valid and expires the given hours from now; when the row cannot be inserted the multipart upload is dropped again unless that call is lost |
| Sessions.RowsNameChunks | crates/jcrd/src/registry.rs:1313-1340 | the part rows, in order, name exactly the accepted chunks in the bucket, orphan or not |
| Sessions.UploadSession.LastPartSize | crates/jcrd/src/registry.rs:1211-1223 | the row read with the session gives the size of the last accepted chunk |
| Sessions.UploadSession.CheckSize | crates/jcrd/src/registry.rs:548-563 | the rule on stored counters refuses exactly what the rule on the accepted chunks refuses |
| Sessions.UploadSession.PersistPart | crates/jcrd/src/registry.rs:1278-1311 | row and counters advance together by one chunk; only the 32-bit part number can run out, and then nothing changes |
| Sessions.UploadSession.StorePart | crates/jcrd/src/registry.rs:565-571 | if bucket or database fails after the part was stored, no row has changed and the orphan sits under the next part number |
| Sessions.UploadSession.PatchUpload | crates/jcrd/src/registry.rs:526-577 | accepts a chunk exactly when the reference model does and nothing fails, then appends it and replies with the old offset plus its length; a session not open or expired is unavailable, and neither rows nor bucket change |
| Sessions.UploadSession.CloseUpload | crates/jcrd/src/registry.rs:620-663 | the PUT's transaction appends the last chunk, if any, and closes the session, exactly when the reference model does; to a session not open or expired it does nothing |
| Sessions.UploadSession.UploadParts | crates/jcrd/src/registry.rs:1313-1340 | part rows in number order carry the tags and sizes of the accepted chunks |
| Sessions.UploadSession.Assemble | crates/jcrd/src/registry.rs:665-674 | on success the object is exactly the accepted bytes, also with an orphan part, also with no part at all; on failure it is that or untouched |
| Sessions.UploadSession.Expire | crates/jcrd/src/gc.rs:53-74 | an expired session that was uploading or finalizing becomes failed, even if the abort fails; any other stays |
| Sessions.UploadSession.Cancel | crates/jcrd/src/registry.rs:727-749 | cancels exactly a session that is uploading, unexpired and still in the bucket, when no call fails; its accepted chunks do not change and its multipart upload is gone |
| Protocol.NextBytes | crates/jcr/src/registry.rs:183-216 | a message cut from the blob at the accepted offset continues the accepted prefix; a PUT completes the blob |
| Protocol.PatchKeepsInv | crates/jcrd/src/registry.rs:526-577 | delivering a PATCH, at any time and any number of times, keeps the invariant and only extends the accepted bytes |
| Protocol.PutKeepsInv | crates/jcrd/src/registry.rs:620-663 | the same for a final PUT |
| Protocol.ExactlyOnce | crates/jcr/src/registry.rs:329-442 | over every run with lost, repeated and reordered messages: accepted bytes are the blob's prefix of the accepted length, they only grow, leaving `uploading` by PUT needs the whole blob, a digest mismatch never happens |
| Protocol.RefusedOnlyForItsOffset | crates/jcrd/src/registry.rs:535-563 | of the size guards only the server's own limit ever refuses a client's message, and with a limit below the chunk size it refuses every PATCH; within it, a message is refused exactly when its offset is not the accepted one |
| Protocol.ReportsAreWholeChunks | crates/jcrd/src/registry.rs:573-595 | every offset a session reports, in whatever run, is a whole number of chunks |
| BlobTables.CompletionHeals | crates/jcrd/src/registry.rs:676-704 | whatever objects committed rows have lost, a completion with the right bytes leaves the digest committed, linked and backed, other rows and objects alone, and no duplicate object |
| BlobTables.WrongDigestChangesNothing | crates/jcrd/src/registry.rs:676-690 | a completion with other bytes than announced leaves tables and bucket as they were |
| BlobTables.RepairIsIdle | crates/jcrd/src/registry.rs:1359-1384 | from a consistent state the repair step does nothing |
| BlobTables.CommittingKeeps | crates/jcrd/src/registry.rs:1386-1448 | committing an object under its true digest keeps the tables consistent; it is a duplicate exactly if the digest was committed |
| BlobTables.CompletionKeeps | crates/jcrd/src/registry.rs:665-704 | wherever a completion stops, tables stay consistent and nothing committed is lost; told success, the digest is committed and linked |
| BlobTables.CompletionRows | crates/jcrd/src/registry.rs:1411-1427 | the only row a completion can add or change to committed has the digest and the size of its bytes |
| BlobTables.CompleteCommits | crates/jcrd/src/registry.rs:665-704 | under a key no row names, a completion commits, links and backs exactly what has the digest asked for, and otherwise leaves rows and links alone |
| BlobTables.CollectingFrees | crates/jcrd/src/gc.rs:101-144 | claim, delete and unlink leave the row not committed, its object and links gone, and everything else as it was |
| BlobTables.FreedSparesOthers | crates/jcrd/src/gc.rs:101-144 | from consistent tables, a committed blob that is not collected keeps its row and its object |
| Lifecycle.CommitKeepsInv | crates/jcrd/src/registry.rs:1386-1448 | the commit transaction keeps the invariant while other completions and the collector are under way |
| Lifecycle.GcStepKeepsInv | crates/jcrd/src/gc.rs:101-144 | claim, delete, restore and unlink each keep the invariant, whatever completions are under way |
| Lifecycle.StepKeepsInv | crates/jcrd/src/registry.rs:622-704 | every step of sessions, completions, mounts and collector keeps the invariant |
| Lifecycle.ContentAddressed | crates/jcrd/src/registry.rs:665-704 | after any interleaving each committed row names an existing object with the row's digest and size, and no two rows name one object |
| Lifecycle.DeletesSpareCommitted | crates/jcrd/src/gc.rs:101-144 | no delete, for a mismatch, a duplicate or garbage, removes an object a committed row names |
| Lifecycle.OneCompletionPerSession | crates/jcrd/src/registry.rs:622-663 | at most one PUT per session passes from uploading to finalizing |
| Lifecycle.SessionMoves | crates/jcrd/src/registry.rs:1267-1276 | the moves a session can make: committed and cancelled are final, a failed one can still be committed, parts come only while uploading |
| Lifecycle.ClosedSessionsStay | crates/jcrd/src/registry.rs:727-749 | after any later steps a closed session has the same parts, and if committed or cancelled is the same altogether |
| Lifecycle.SessionRequests | crates/jcrd/src/registry.rs:412-577 | opening, patching, cancelling and expiring each do to one session what they should and leave everything else alone |
| Lifecycle.RepairIsIdle | crates/jcrd/src/registry.rs:1359-1384 | under interleaving too, the repair's update finds nothing to change |
| Lifecycle.AloneIsComplete | crates/jcrd/src/registry.rs:665-704 | a completion stepped through alone does what the one-piece function does |
| Lifecycle.PutCommits | crates/jcrd/src/registry.rs:598-725 | after any run, a PUT that is not refused and seven undisturbed steps of its completion leave the digest committed, linked and backed if the bytes have it, and rows and links alone if not |
| Lifecycle.CollectorFrees | crates/jcrd/src/gc.rs:101-144 | an undisturbed turn of the collector frees the first blob of its list; a failed delete, restored, leaves the tables as they were |
| Manifests.PushAll | crates/jcr-core/src/manifest.rs:112-124 | the loop appends one numbered item per value, or fails if one does not decode |
| Manifests.ParseDocument | crates/jcr-core/src/manifest.rs:63-156 | the loops compute the specification function, error by error |
| Manifests.ParsedItems | crates/jcr-core/src/manifest.rs:101-145 | an image's items are its config and its layers in order, an index's its manifests in order; the subject comes last; nothing else |
| Manifests.SelfDescribingReadsOneWay | crates/jcr-core/src/manifest.rs:74-80 | a body that names its media type is read the same under every Content-Type |
| Manifests.ReparseIsStable | crates/jcr-core/src/manifest.rs:74-145 | parsing again under the document's own media type gives the same document |
| Manifests.PositionsIdentify | crates/jcr-core/src/manifest.rs:101-145 | positions are gap-free within a relationship, so relationship and position identify a descriptor |
| Manifests.KindIsDecided | crates/jcr-core/src/manifest.rs:82-90 | the two manifest types give an image, the index and list types an index, whatever the body holds; otherwise the body decides, config or layers before manifests |
| Manifests.ParsedByKind | crates/jcr-core/src/manifest.rs:101-145 | two readings of one body differ in nothing that matters but their kind |
| Manifests.ContentTypeIsRead | crates/jcr-core/src/manifest.rs:74-80 | where the body names no type, white space around a Content-Type and parameters after a semicolon are not part of the media type |
| Manifests.NamedTypeIsRead | crates/jcr-core/src/manifest.rs:74-80 | the type a body names wins over any Content-Type, trimmed and otherwise taken whole |
| Manifests.ParsedFields | crates/jcr-core/src/manifest.rs:70-100 | only schema version 2 parses; artifact type and subject are those of the body |
| Registry.InsertEdges | crates/jcrd/src/registry.rs:1086-1109 | every descriptor has an edge afterwards, existing edges keep their rows, and every new edge comes from a descriptor |
| Registry.ReferencedByLive | crates/jcrd/src/gc.rs:85-93 | the blobs of a live manifest are among those the collector's query protects |
| Registry.CollectKeeps | crates/jcrd/src/gc.rs:101-144 | collecting, also when broken off in between, takes no blob from a live manifest and leaves the tables consistent |
| Registry.PushKeeps | crates/jcrd/src/registry.rs:784-785 | a push makes live only manifests whose blobs are there |
| Registry.RequestKeeps | crates/jcrd/src/registry.rs:1000-1119 | every request keeps consistency and reachability |
| Registry.LiveManifestsAreComplete | crates/jcrd/src/registry.rs:1000-1119 | after any run, config and layers of every live manifest are linked in its repository, committed at the descriptor's size, and backed by objects of that digest |
| Registry.DependencyRefusal | crates/jcrd/src/registry.rs:1000-1059 | nothing is refused exactly when every descriptor passes; a refusal is that of the first descriptor that fails |
| Registry.PushAcceptedIff | crates/jcrd/src/registry.rs:751-800 | a push is accepted exactly if the body is at most 8 MiB and parses, every descriptor is in order, and the reference is the body's own digest or a well-formed tag that is free to move |
| Registry.PushErrors | crates/jcrd/src/registry.rs:751-800 | otherwise the error is that of the first thing wrong, in the order size, body, digest, descriptors, tag; of the descriptors, the first |
| Registry.TagErrors | crates/jcrd/src/registry.rs:1121-1145 | a malformed tag, a tag covered by the pattern and a pattern that is invalid have errors of their own |
| Registry.PushEffect | crates/jcrd/src/registry.rs:1061-1119 | an accepted push adds a live link, and a manifest row with the document's columns unless the digest has one; other rows and links stay |
| Registry.PushStoresEdges | crates/jcrd/src/registry.rs:1086-1109 | it adds the missing edges of its descriptors, column by column, and no others |
| Registry.PushBindsTag | crates/jcrd/src/registry.rs:1146-1173 | under a tag it binds exactly that tag, with an event exactly if the tag moves; under a digest tags and events stay |
| Registry.DeleteRemoves | crates/jcrd/src/registry.rs:884-926 | a delete takes away exactly one live link and the tags that point to it; exactly what resolved to the digest there no longer resolves |
| Registry.CollectEnds | crates/jcrd/src/gc.rs:101-144 | what each of the four ways in which a turn of the collector can end leaves of row, object and links |
| History.MoveTagKeeps | crates/jcrd/src/registry.rs:1146-1173 | moving a tag logs exactly what is needed to replay it |
| History.DeleteKeeps | crates/jcrd/src/registry.rs:884-926 | deleting a manifest removes its tags and logs one true event for each, in any order |
| History.HistoryReplays | crates/jcrd/src/registry.rs:1110-1175 | after any run the events fold to the tag table; each tells its tag's value just before it and changes it; every tag points to a live manifest |
| History.ProtectedTagsStay | crates/jcrd/src/registry.rs:1132-1145 | while the pattern covers a bound tag, no run of requests moves it, unless its manifest is deleted |
| History.UnprotectedTagsMove | crates/jcrd/src/registry.rs:1121-1157 | otherwise a push that is in order moves the tag; one stopped by the pattern changes nothing at all |
| History.TagsAreWellFormed | crates/jcrd/src/registry.rs:1189-1204 | after any run every bound tag has 1 to 128 letters, digits, underscores, dots and hyphens, the first a letter or digit |
| Pulls.PullAfterPush | crates/jcrd/src/registry.rs:1071-1084 | after an accepted push a pull reads the kind that was checked if and only if the digest had no row or its row reads as that kind; when every blob the puller is told of is there, exactly |
| Pulls.PayloadsAreTrue | crates/jcrd/src/registry.rs:1071-1119 | after any run every manifest row holds pushed bytes of its digest under a type they parse with; every live manifest has a row |
| Pulls.PulledManifestsAreComplete | crates/jcrd/src/registry.rs:802-866 | after any run without collisions among pushed bodies, a live manifest is served with the bytes that were checked; read as the kind that was checked, or as an index, all its blobs are there; bodies that name their type are |
| Pulls.ResolvesExactly | crates/jcrd/src/registry.rs:802-844 | after any run a digest resolves exactly while it is live in the repository, and any other reference to exactly what the tag table holds |
| Edges.PersistKeepsEdges | crates/jcrd/src/registry.rs:1086-1109 | a push stores the edges of its reading and explains every other, whatever readings of the digest came before |
| Edges.EdgesAreDescriptors | crates/jcrd/src/registry.rs:1086-1109 | after any run, the edges of a digest are in bijection with the descriptors of a reading exactly if no accepted push read it as the other kind with children |
| Edges.StoredEdgesAreDescriptors | crates/jcrd/src/registry.rs:1071-1109 | after any run every edge has a manifest row, and for a body that names its type the edges are in bijection with the descriptors a pull reads |
| Edges.PushingAgainAddsNothing | crates/jcrd/src/registry.rs:1086-1109 | after any run, pushing a reading again adds no edge and changes none |
| Edges.SelfDescribingIsReadOnce | crates/jcr-core/src/manifest.rs:74-80 | a body that names its type is read as one kind in the whole run |
| Edges.ReferencedIffInUse | crates/jcrd/src/gc.rs:80-99 | after any run, the collector's query protects exactly the blobs that some live manifest, in a way it was read, has as config or layer |
| Misreadings.UnnamedTypesMisread | crates/jcrd/src/registry.rs:1071-1084 | a run in which a repository that checked an index serves an image whose layer it does not have |
| Misreadings.UnnamedTypesMixEdges | crates/jcrd/src/registry.rs:1086-1109 | a run in which a digest served as an index has a layer edge |
| Misreadings.TwoTypesOneVisit | crates/jcr/src/image.rs:233-238 | the walk, run on an archive that misses the layer of an image under its root, succeeds, because the digest was visited as an index |
| Server.RegistryServer.RepairMissing | crates/jcrd/src/registry.rs:1359-1384 | in place, the repair step of the specification |
| Server.RegistryServer.CommitRow | crates/jcrd/src/registry.rs:1386-1448 | in place, the commit of the specification, and whether it met a duplicate |
| Server.RegistryServer.FinishUpload | crates/jcrd/src/registry.rs:676-704 | from hashing on, in place and wherever a call fails, the completion whose laws are proved in BlobTables |
| Server.RegistryServer.CompleteClosed | crates/jcrd/src/registry.rs:665-704 | from assembly on, with the session's status; where it stops is where a call failed, and if none did it commits exactly the right digest |
| Server.CompletedWhole | crates/jcrd/src/registry.rs:676-704 | what the client is told of a completion that nothing broke off is true of the tables |
| Server.RegistryServer.CompleteUpload | crates/jcrd/src/registry.rs:598-704 | session, bucket and tables together: a refused PUT changes nothing; one that gets through is one request of a run; if no call fails, for the right digest the client is told of success, the session is committed, and the digest committed, linked and backed by its object, and for any other the client is told so and no row, link or object is left |
| Server.RegistryServer.BlobExists | crates/jcrd/src/registry.rs:347-378 | a blob exists for a repository if it is linked there and committed |
| Server.RegistryServer.MountBlob | crates/jcrd/src/registry.rs:499-523 | says yes exactly for a committed blob of the source repository; then the target is linked to it, and nothing else ever changes |
| Server.RegistryServer.ValidateDependencies | crates/jcrd/src/registry.rs:1000-1059 | the loop finds the first descriptor refused |
| Server.RegistryServer.PutManifest | crates/jcrd/src/registry.rs:751-785 | the push of the specification, one request of a run: a refusal leaves manifests, links, edges, tags and events as they were |
| Server.RegistryServer.PersistManifest | crates/jcrd/src/registry.rs:1061-1175 | all tables change together or not at all |
| Server.RegistryServer.BindTag | crates/jcrd/src/registry.rs:1121-1174 | the tag rules and the event that goes with a move |
| Server.RegistryServer.InsertAll | crates/jcrd/src/registry.rs:1086-1109 | the loop of inserts adds the edges of the specification |
| Server.RegistryServer.Resolve | crates/jcrd/src/registry.rs:809-844 | a digest resolves to itself, a tag to what it points to, exactly if live in the repository with a row; nothing else resolves |
| Server.RegistryServer.DeleteManifest | crates/jcrd/src/registry.rs:884-926 | the live link and every tag of the repository that points to the digest are gone, every other link and tag is as it was; one event for each tag, in the order in which the rows came back; not found, nothing changes |
| Server.RegistryServer.CollectOne | crates/jcrd/src/gc.rs:101-144 | one claim, delete and unlink, or one undone or broken off in between, as specified; done to its end on garbage, the row is not committed and its object and links are gone, and nothing else has changed |
| Server.CollectOneOf | crates/jcrd/src/gc.rs:101-144 | collecting one piece leaves every other row and every other piece of garbage as it was; a failed delete leaves everything |
| Server.RegistryServer.ListGarbage | crates/jcrd/src/gc.rs:80-99 | only garbage is listed, each piece once, the oldest rows first; what is left out of a full batch is no older |
| Server.RegistryServer.CollectGarbage | crates/jcrd/src/gc.rs:78-146 | a pass that succeeds leaves no committed row, object or link of what it lists as done, and all else as it was, committed blobs with their objects; what it collects was garbage at its start, the oldest first and all of it unless the batch is full; it ends early only at a turn in which a call failed |
| Server.RegistryServer.SetPattern | crates/jcrd/src/web.rs:587-595 | the pattern of one repository is the new one or gone, every other as it was |
| Walk.VerifyFile | crates/jcr/src/image.rs:289-305 | true exactly for a file of that digest and size |
| Walk.ReadDescriptor | crates/jcr/src/image.rs:273-280 | reads exactly the verified files of at most 8 MiB |
| Walk.GraphContext.VisitBlob | crates/jcr/src/image.rs:242-253 | a verified blob is in the inventory at its size, once |
| Walk.GraphContext.Enter | crates/jcr/src/image.rs:264-270 | the manifest is appended after all it refers to, and stays sendable under its own type |
| Walk.GraphContext.VisitItem | crates/jcr/src/image.rs:241-262 | one descriptor: afterwards its blob or its whole subtree is in, and nothing that it does not lead to; succeeds exactly as specified |
| Walk.GraphContext.VisitItems | crates/jcr/src/image.rs:240-263 | the loop over the descriptors of one manifest; it fails with the first that fails |
| Walk.GraphContext.VisitManifest | crates/jcr/src/image.rs:225-271 | terminates on acyclic layouts; each manifest once, children before parents, the root last; all blobs at verified sizes; nothing that was not found from the root; exactly when it succeeds, a digest met before being parsed but not entered again |
| Walk.SoundVisits | crates/jcr/src/image.rs:225-305 | under a sound root a visit succeeds, whatever was visited before |
| Walk.PrepareOciArchive | crates/jcr/src/image.rs:72-130 | succeeds exactly if there is an entry document and its visit succeeds; the image starts at the only manifest of the index, or at the index itself, and is complete, ordered and verified |
| Walk.RootsAreNamed | crates/jcr/src/image.rs:97-104 | the roots are the Manifest descriptors of the index |
| Walk.RootsInOrder | crates/jcr/src/image.rs:97-112 | one root for each Manifest descriptor, in the same order |
| Reachability.ExactlyReachable | crates/jcr/src/image.rs:225-271 | the image holds exactly the manifests its root reaches over Manifest edges, under the types they were read with |
| Reachability.WalkIsReachability | crates/jcr/src/image.rs:225-271 | every manifest of the image is led to from the entry document by files and descriptors' types; if those agree on kinds, nothing else is |
| Reachability.HoldsAllIffInside | crates/jcr/src/image.rs:225-271 | for all archives: the image holds all that is led to exactly if nothing behind a misreading lies outside of it |
| Reachability.NamedTypesAgree | crates/jcr-core/src/manifest.rs:74-80 | types agree for manifests that name their own |
| Reachability.SoundIffOthersAre | crates/jcr/src/image.rs:225-305 | for all prepared images: everything under the root is sound exactly if every other reading that a descriptor of the image calls for is |
| Reachability.WalkIsSoundIff | crates/jcr/src/image.rs:72-130 | the same from the entry document of an archive |
| Reachability.PreparedIsSound | crates/jcr/src/image.rs:225-305 | if descriptors agree on kinds, a walk succeeds only if everything under the root parses and verifies |
| Resume.ResumeStore.Set | crates/jcr/src/resume.rs:53-60 | the map changes even if the file cannot be written; the write fails exactly if the disk does |
| Resume.ResumeStore.Remove | crates/jcr/src/resume.rs:62-69 | the same for a removal |
| Resume.ResumeStore.WriteAtomic | crates/jcr/src/resume.rs:84-108 | the file holds its old snapshot or the new one, and always a past value of the map, however late the write |
| Wire.HeaderReadsBack | crates/jcr/src/registry.rs:336-343 | the Content-Range text of a message is read by the server as the range of the protocol |
| Wire.TextIsRange | crates/jcrd/src/registry.rs:1463-1516 | the server refuses the text exactly when it would refuse the range, also for numbers past 64 bits |
| Wire.ActKeeps | crates/jcrd/src/registry.rs:526-663 | every session stays a run of the protocol with uniform parts |
| Wire.HarmlessGrows | crates/jcrd/src/registry.rs:115-185 | requests of others, short of deletes, of moving the same tag and of colliding bytes, keep everything a push relies on |
| Wire.PushGrows | crates/jcrd/src/registry.rs:751-800 | a manifest PUT touches no blob and no other tag; accepted, its manifest is live and its tag points to it |
| Network.Remote.HeadBlob | crates/jcrd/src/registry.rs:347-378 | success means committed and linked; when nothing interferes, the answer is yes exactly then |
| Network.Remote.PostUpload | crates/jcrd/src/registry.rs:412-484 | a new session at an address of its own, at offset 0, and always when nothing interferes |
| Network.Remote.GetUpload | crates/jcrd/src/registry.rs:579-596 | a success comes only from a session that is open and unexpired, and says its accepted offset; when nothing interferes an open session answers |
| Network.Remote.HandlePatch | crates/jcrd/src/registry.rs:526-577 | success exactly if the session takes the chunk and nothing fails, never if it has expired; then the chunk is appended and the Range of the reply reads back as the new accepted offset |
| Network.Remote.PatchUpload | crates/jcrd/src/registry.rs:526-577 | a PATCH is a step of the session's run if the protocol allows it, whether it arrives now, later or never; when nothing interferes it is accepted if the session takes it |
| Network.Remote.Complete | crates/jcrd/src/registry.rs:665-704 | a session closed by a PUT completes with its accepted bytes; success means that they have the digest and it is committed and linked; broken off nowhere, it succeeds for that digest |
| Network.Remote.HandlePut | crates/jcrd/src/registry.rs:598-725 | success only from a session open and unexpired whose bytes, with those of the PUT, have the digest; and then always, if nothing fails |
| Network.Remote.PutUpload | crates/jcrd/src/registry.rs:598-725 | a final PUT is a step of the session's run if the protocol allows it; success means committed and linked; when nothing interferes it succeeds exactly if the bytes have the digest |
| Network.Remote.PutManifest | crates/jcrd/src/registry.rs:751-800 | success means live, and the tag moved; every PUT that reaches the handler is on record with its outcome, and when nothing interferes the reply tells it |
| Client.RegistryClient.BlobExists | crates/jcr/src/registry.rs:229-257 | yes means the blob is committed and linked; no answer only after a final reply, five that call for another attempt, or a token refused |
| Client.RegistryClient.StartUpload | crates/jcr/src/registry.rs:259-291 | a position is a session just opened, at offset 0; it gives up only after a final reply, five attempts or a token refused |
| Client.RegistryClient.ResumeOrStart | crates/jcr/src/registry.rs:153-167 | the session remembered is asked first and used if it answers with a whole offset within the blob; only otherwise is a session opened |
| Client.RegistryClient.UploadStatus | crates/jcr/src/registry.rs:293-327 | the position is the one the server reported last, and a report is never ignored; it gives up only after a final reply, five attempts, or a token refused |
| Client.RegistryClient.AfterHitch | crates/jcr/src/registry.rs:358-379 | between two attempts: a new token, or a status query, whose report is the last thing on record |
| Client.RegistryClient.SendChunk | crates/jcr/src/registry.rs:337-357 | one PATCH, on record with its reply; an accepted one reports the position |
| Client.RegistryClient.SendRest | crates/jcr/src/registry.rs:396-412 | one final PUT, on record with its reply; created means committed and linked |
| Client.RegistryClient.AfterPut | crates/jcr/src/registry.rs:413-438 | between two attempts: a new token, or a look for the blob, which is in vain or finds it committed and linked |
| Client.RegistryClient.CompleteUpload | crates/jcr/src/registry.rs:386-442 | success means the blob is committed and linked, also when the reply was lost; it fails only after a final reply, five attempts or a token refused, and only if after each PUT that may have landed a look for the blob was in vain |
| Client.RegistryClient.PutManifest | crates/jcr/src/registry.rs:444-473 | success means live, and the tag moved; it fails only after a final reply, five attempts or a token refused |
| Client.RegistryClient.PushBlobs | crates/jcr/src/registry.rs:106-126 | success means all blobs of the image are committed and linked; failure has one of the causes of UploadBlob |
| Client.RegistryClient.PushNext | crates/jcr/src/registry.rs:128-135 | the next manifest passes the dependency check exactly if its subject has no negative size |
| Client.RegistryClient.PushManifests | crates/jcr/src/registry.rs:128-136 | the same for all of them, in order |
| Client.RegistryClient.Push | crates/jcr/src/registry.rs:86-137 | end to end: every manifest PUT passes the dependency check unless a subject has a negative size; on success the reference resolves to the root, every manifest is live, every config and layer is committed, linked and backed by its bytes; it fails only for a reference that is another digest, or if calls gave up, the resume file could not be written, or a chunk was acknowledged at another offset |
| Client.ReferenceNames | crates/jcr/src/registry.rs:128-135 | what the client calls a manifest never names another one |
| Client.RegistryClient.PatchUpload | crates/jcr/src/registry.rs:329-384 | sends one message only, and again only while no status reported its end; after every reply that leaves it open whether a chunk arrived, the status is asked next; spoils no session that allows the message; fails only after a final reply, five attempts or a token refused |
| Client.RegistryClient.Transfer | crates/jcr/src/registry.rs:179-226 | terminates; sends rest on the reported offset, one chunk after the other, then one PUT shorter than a chunk; all allowed in a session for this blob; broken off, it leaves in the resume store the session and the last position it went on from |
| Client.RegistryClient.Finish | crates/jcr/src/registry.rs:209-226 | the rest of the file, less than a chunk, goes out with the final PUT; success means committed and linked; failing, it leaves the position remembered |
| Client.RegistryClient.UploadBlob | crates/jcr/src/registry.rs:139-227 | a session remembered is asked first; if it answers with a whole offset within the blob, that is where the upload begins, and no session is opened; nothing is sent before the server reported an offset, all sends rest on that one; in a session for this blob they are steps of its run and carry no byte whose acceptance had been reported; success means committed and linked; failure leaves the last position remembered and has a cause on record |
| Client.SendsFollowProtocol | crates/jcr/src/registry.rs:179-222 | whatever the upload, all its sends to a session for its blob are steps of that session's run |
| Client.NothingReportedIsSent | crates/jcr/src/registry.rs:179-222 | every send of an upload to a session for its blob is a step of that session's run, and carries no byte whose acceptance had been reported to this client |
| Pushes.PassesUnlessBadSubject | crates/jcrd/src/registry.rs:1000-1059 | pushed in order, a manifest is refused by the dependency check exactly if its subject has a negative size |
| Pushes.AllThereIsComplete | crates/jcrd/src/registry.rs:802-844 | what has been pushed is what a pull of the reference needs |
| Pushes.NegativeSubjectIsRefused | crates/jcr/src/image.rs:258-261 | the client prepares an image from an archive, and no registry accepts its root, whatever its state |
| Pushes.BlobIsReady | crates/jcrd/src/registry.rs:1014-1028 | a verified blob that is committed and linked passes the check at its descriptor's size |
| Ranges.DecimalParses | crates/jcrd/src/registry.rs:1491-1504 | reading back a printed number gives it, exactly up to the largest value of the type |
| Ranges.RangeRoundTrip | crates/jcrd/src/registry.rs:1592-1594 | the client reads every offset the server can write, 0 included |
| Ranges.ContentRangeRoundTrip | crates/jcrd/src/registry.rs:1463-1504 | the server reads the client's pair, and the form with unit and total |
| Ranges.StartIsNatural | crates/jcrd/src/registry.rs:1484-1497 | a start that parses is never negative |
| Ranges.AcceptedAtItsOffset | crates/jcrd/src/registry.rs:1505-1514 | a client's chunk passes the range check exactly at the accepted offset |
| References.RoundTrip | crates/jcr-core/src/reference.rs:38-109 | printing and parsing gives the same reference; a tag is never taken for a digest or the other way round |
| References.ParseIffPrintable | crates/jcr-core/src/reference.rs:56-109 | the values the parser can return are exactly the printable ones |
| References.AcceptedTagsRoundTrip | crates/jcrd/src/registry.rs:1189-1204 | a tag the server accepts is never a digest, and survives being written into a reference |
| References.ParsePrintParse | crates/jcr-core/src/reference.rs:38-109 | whatever was parsed survives printing and parsing |
| References.RepositoryAlphabet | crates/jcr-core/src/reference.rs:85-98 | an accepted repository name has only name characters and slashes |
| References.WithoutTagOrRegistry | crates/jcr-core/src/reference.rs:56-83 | without a tag `latest` is meant; a first piece without dot or colon that is not `localhost` is no registry |
| Scopes.ParseAction | crates/jcr-core/src/auth.rs:26-38 | exactly the four printed names are read |
| Scopes.RoundTripIff | crates/jcr-core/src/auth.rs:63-100 | a scope round-trips exactly when its name is not empty and has no colon |
| Scopes.ParsePrintParse | crates/jcr-core/src/auth.rs:63-100 | every parsed scope round-trips |
| Scopes.GrantsWhatItSays | crates/jcr-core/src/auth.rs:57-60 | a scope permits an action exactly when the action or `admin` is among the pieces of its text |
| Scopes.ParsesIff | crates/jcr-core/src/auth.rs:78-100 | a scope parses exactly if it is `repository:`, a non-empty name without colons, and known actions or empty pieces |
| Usernames.GrammarMeans | migrations/0001_initial.sql:28-30 | the language of the database's check, in terms of single characters |
| Usernames.Scan | crates/jcrd/src/db.rs:357-376 | the one-flag loop accepts exactly those strings |
| Usernames.NormalizeUsername | crates/jcrd/src/db.rs:349-378 | accepts exactly the trimmed, lower-cased strings of length 1 to 64 in the language of the database's check |
| Usernames.Idempotent | crates/jcrd/src/db.rs:349-378 | an accepted name is accepted as itself |
| Pagination.PageThenRest | crates/jcrd/src/registry.rs:953-996 | a page and what its next link leads to are what was asked for; the next pages have the same size |
| Pagination.PagesListEveryTagOnce | crates/jcrd/src/registry.rs:940-998 | for any page size, following the next links ends and lists the tags in order, each once |
| Pagination.PageSize | crates/jcrd/src/registry.rs:947-951 | 100 by default, what was asked for between 1 and 1000, else the nearer of the two |

## Left out

- HTTP, URLs, SQL and the S3 SDK: requests are calls, tables are maps, the bucket is the class `Storage.Bucket`; a table lock is an atomic step.
- Authorization, repositories as rows, users, audit records: an authorized actor and an existing repository are taken for granted.
- JSON text, SHA-256 and regular expressions for tags: parameters of the model.
- The Docker path of `crates/jcr/src/image.rs:132-216`, archive unpacking and gzip: the walk starts from an unpacked OCI layout.
- Progress bars, retry delays, tokens: refreshing a token is a call that may fail.
- Concurrent uploads of one client (`buffer_unordered`): the blobs are uploaded one after the other, in any order, while other clients' requests run in between.
- Finer steps for reachability: `Registry` takes each request, and each pass over one piece of garbage, as atomic; `Lifecycle` has the finer steps, without manifests.
- Several collectors at once, bucket writes that take effect after their request has ended, and two first commits of one digest that pass the empty row lock together.
- Client.NothingReportedIsSent: speaks of sessions that everybody else, too, uses for this blob and on an unchanged file (`Client.IsFor`); what is sent to any other session is bounded by `Client.Uploaded` all the same.
- Client.RegistryClient.UploadBlob: does not promise success under retries, because the original does not: when a PATCH is accepted and both its reply and the status query are lost, the retry is refused and the client gives up. Its causes of failure are counted over the whole upload, those of single calls in their own contracts.
- Server.RegistryServer.SetPattern: stores any pattern; that the form trims it, takes an empty one for none and refuses one that does not compile (`crates/jcrd/src/web.rs:578-586`) is not modelled, so the results cover patterns that got in otherwise.
- Usernames.NormalizeUsername: runs over characters where the original runs over bytes; every byte of a character outside ASCII is refused like the character.
