/**
 One body without a media type, read as an image and as an index: what a repository serves that
 checked it as the other kind, what the edge table holds, and what a walk does not look at.
 */
module Misreadings {
  import opened Common
  import opened Digests
  import opened Text
  import opened BlobTables
  import opened Manifests
  import opened Registry
  import opened Examples
  import History
  import Pulls
  import Walk

  /** A body with an empty list of manifests and one layer, and no media type. */
  const AMBIGUOUS: Json := Object(map[
    "schemaVersion" := Integer(2),
    "manifests" := Array([]),
    "layers" := Array([DescriptorObject("layer", LAYER, 1)])])

  const LAYER_DESCRIPTOR: Descriptor := Descriptor("layer", LAYER, 1, None, None, None)

  /** An index that names the body twice, under different types. */
  const TWO_TYPES: Json := Object(map[
    "schemaVersion" := Integer(2),
    "mediaType" := Str(OCI_IMAGE_INDEX),
    "manifests" := Array([
      DescriptorObject(OCI_IMAGE_INDEX, MANIFEST, 1),
      DescriptorObject(OCI_IMAGE_MANIFEST, MANIFEST, 1)])])

  /** One byte each stands for the layer and for the texts of the two bodies and the marker. */
  const LAYER_BYTES: Bytes := [1]
  const BODY: Bytes := [2]
  const ROOT: Bytes := [3]

  function ExampleEnv(): Env {
    Env(Codec(bytes => if bytes == LAYER_BYTES then LAYER else if bytes == ROOT then INDEX else MANIFEST,
              bytes => if bytes == BODY then Some(AMBIGUOUS) else if bytes == ROOT then Some(TWO_TYPES)
                       else if bytes == MARKER then Some(LAYOUT_MARKER) else None,
              Decode),
        (pattern, tag) => Some(false))
  }

  lemma PlainTypes()
    ensures forall t :: t in {OCI_IMAGE_MANIFEST, OCI_IMAGE_INDEX} ==> ';' !in t && Trim(t) == t
  {
    hide Trim;
    assert OCI_IMAGE_MANIFEST[0] == 'a' && OCI_IMAGE_MANIFEST[|OCI_IMAGE_MANIFEST| - 1] == 'n';
    assert OCI_IMAGE_INDEX[0] == 'a' && OCI_IMAGE_INDEX[|OCI_IMAGE_INDEX| - 1] == 'n';
    assert !IsSpace('a') && !IsSpace('n');
  }

  lemma TypeIsSupplied(mediaType: string)
    requires mediaType in {OCI_IMAGE_MANIFEST, OCI_IMAGE_INDEX}
    ensures MediaType(AMBIGUOUS, Some(mediaType)) == Some(mediaType)
  {
    hide Trim, Split;
    assert GetText(AMBIGUOUS, "mediaType").None?;
    PlainTypes();
    SplitNothing(mediaType, ';');
  }

  lemma KindIsSupplied()
    ensures KindOf(AMBIGUOUS, OCI_IMAGE_MANIFEST) == Some(ImageManifest)
    ensures KindOf(AMBIGUOUS, OCI_IMAGE_INDEX) == Some(ImageIndex)
  {
    assert |OCI_IMAGE_INDEX| < |OCI_IMAGE_MANIFEST| < |DOCKER_IMAGE_MANIFEST|;
  }

  lemma FieldsAre()
    ensures Get(AMBIGUOUS, "schemaVersion") == Some(Integer(2)) && Get(AMBIGUOUS, "config").None?
    ensures GetText(AMBIGUOUS, "artifactType").None? && Get(AMBIGUOUS, "subject").None?
    ensures GetArray(AMBIGUOUS, "layers") == [DescriptorObject("layer", LAYER, 1)]
            && GetArray(AMBIGUOUS, "manifests") == []
  {
  }

  lemma OneLayer()
    ensures var codec := ExampleEnv().codec;
      && DecodeAll(codec, Layer, [DescriptorObject("layer", LAYER, 1)]) == Some([Item(Layer, 0, LAYER_DESCRIPTOR)])
      && DecodeAll(codec, Config, []) == Some([]) && DecodeAll(codec, Manifest, []) == Some([])
  {
    hide DecodeAll, Decode, DescriptorObject;
    var codec := ExampleEnv().codec;
    DecodeObject("layer", LAYER, 1);
    var layers := DecodeAll(codec, Layer, [DescriptorObject("layer", LAYER, 1)]);
    assert codec.descriptor([DescriptorObject("layer", LAYER, 1)][0]) == Some(LAYER_DESCRIPTOR);
    assert layers.Some? && layers.value == [Item(Layer, 0, LAYER_DESCRIPTOR)];
    assert DecodeAll(codec, Config, []).value == [] && DecodeAll(codec, Manifest, []).value == [];
  }

  const AS_IMAGE: Document :=
    Document(BODY, MANIFEST, OCI_IMAGE_MANIFEST, ImageManifest, None, None, [Item(Layer, 0, LAYER_DESCRIPTOR)])
  const AS_INDEX: Document := Document(BODY, MANIFEST, OCI_IMAGE_INDEX, ImageIndex, None, None, [])

  /** One and the same body is an image with a layer, or an index of nothing. */
  lemma ReadBothWays()
    ensures Manifests.Parse(ExampleEnv().codec, BODY, Some(OCI_IMAGE_MANIFEST)) == Ok(AS_IMAGE)
    ensures Manifests.Parse(ExampleEnv().codec, BODY, Some(OCI_IMAGE_INDEX)) == Ok(AS_INDEX)
  {
    hide MediaType, KindOf, Get, GetText, GetArray, DecodeAll, Decode;
    TypeIsSupplied(OCI_IMAGE_MANIFEST);
    TypeIsSupplied(OCI_IMAGE_INDEX);
    KindIsSupplied();
    FieldsAre();
    OneLayer();
    var codec := ExampleEnv().codec;
    assert codec.json(BODY) == Some(AMBIGUOUS) && codec.hash(BODY) == MANIFEST;
    assert SubjectOf(codec, AMBIGUOUS) == Ok(None);
    assert Children(codec, AMBIGUOUS, ImageIndex) == Some([]);
    assert Children(codec, AMBIGUOUS, ImageManifest) == Some([] + AS_IMAGE.items);
    assert [] + AS_IMAGE.items == AS_IMAGE.items;
  }

  const UPLOAD: Request := FinishUpload("b", "key", LAYER_BYTES, LAYER, Never)
  const AS_IMAGE_TO_B: Request := PushManifest("b", "tag", Some(OCI_IMAGE_MANIFEST), BODY)
  const AS_INDEX_TO_A: Request := PushManifest("a", "tag", Some(OCI_IMAGE_INDEX), BODY)

  lemma AfterUpload()
    ensures var s := Registry.Apply(ExampleEnv(), Registry.INITIAL, UPLOAD);
      && s.t.blobs == map[LAYER := BlobRow("key", 1, Live)] && s.t.links == {("b", LAYER)}
      && s.db == Registry.INITIAL.db
  {
  }

  lemma PlainTag()
    ensures ValidTag("tag") && Digests.Parse("tag").Err?
  {
  }

  lemma ExampleAccepted(s: State, repo: Repo, mediaType: string, doc: Document)
    requires Manifests.Parse(ExampleEnv().codec, BODY, Some(mediaType)) == Ok(doc) && doc in {AS_IMAGE, AS_INDEX}
    requires s.db.patterns == map[]
    requires doc == AS_IMAGE ==> BlobReady(s.t, repo, doc.items[0])
    ensures PushRefusal(ExampleEnv(), s, repo, "tag", Some(mediaType), BODY).None?
  {
    hide Manifests.Parse, Digests.Parse, ValidTag, BlobReady, Decode;
    PlainTag();
    assert forall i :: 0 <= i < |doc.items| ==> ItemRefusal(s, repo, doc.items[i]).None?;
    hide DependencyRefusal;
  }

  /** A push of one of the two readings goes through where its blobs are. */
  lemma ExamplePush(s: State, repo: Repo, mediaType: string, doc: Document)
    requires Manifests.Parse(ExampleEnv().codec, BODY, Some(mediaType)) == Ok(doc) && doc in {AS_IMAGE, AS_INDEX}
    requires s.db.patterns == map[]
    requires doc == AS_IMAGE ==> BlobReady(s.t, repo, doc.items[0])
    ensures var s' := Registry.Apply(ExampleEnv(), s, PushManifest(repo, "tag", Some(mediaType), BODY));
      && s'.t == s.t && s'.db.patterns == map[] && s'.db.live == s.db.live + {(repo, MANIFEST)}
      && s'.db.manifests == (if MANIFEST in s.db.manifests then s.db.manifests
                             else s.db.manifests[MANIFEST := ManifestRow(doc.mediaType, None, None, BODY)])
      && s'.db.edges == InsertEdges(s.db.edges, MANIFEST, doc.items)
  {
    hide Manifests.Parse, Digests.Parse, PushRefusal, ValidTag, BlobReady, InsertEdges, Decode;
    PlainTag();
    ExampleAccepted(s, repo, mediaType, doc);
  }

  lemma RunOfThree(env: Env, a: Request, b: Request, c: Request)
    ensures Registry.Run(env, [a, b, c]) ==
            Registry.Apply(env, Registry.Apply(env, Registry.Apply(env, Registry.INITIAL, a), b), c)
  {
    hide Registry.Apply;
    var run := [a, b, c];
    assert run[..2][..1][..0] == [];
    assert Registry.Run(env, run[..2][..1]) == Registry.Apply(env, Registry.INITIAL, a);
    assert Registry.Run(env, run[..2]) == Registry.Apply(env, Registry.Run(env, run[..2][..1]), b);
  }

  /**
   Pushed as an image first, the body is served as the image everywhere, also to the repository
   that checked an index, and that does not have the layer.
   */
  lemma UnnamedTypesMisread()
    ensures var s := Registry.Run(ExampleEnv(), [UPLOAD, AS_IMAGE_TO_B, AS_INDEX_TO_A]);
      && ("a", MANIFEST) in s.db.live
      && Pulls.Pulled(ExampleEnv(), s.db, MANIFEST) == Some(AS_IMAGE)
      && NeedsBlob(AS_IMAGE.items[0]) && !BlobReady(s.t, "a", AS_IMAGE.items[0])
  {
    hide Registry.Apply, Manifests.Parse, Registry.Run;
    var env := ExampleEnv();
    ReadBothWays();
    AfterUpload();
    RunOfThree(env, UPLOAD, AS_IMAGE_TO_B, AS_INDEX_TO_A);
    var s1 := Registry.Apply(env, Registry.INITIAL, UPLOAD);
    ExamplePush(s1, "b", OCI_IMAGE_MANIFEST, AS_IMAGE);
    ExamplePush(Registry.Apply(env, s1, AS_IMAGE_TO_B), "a", OCI_IMAGE_INDEX, AS_INDEX);
  }

  /**
   Pushed as an index first, the body is served as the index everywhere; the push as an image adds
   an edge all the same, which no descriptor of the index explains.
   */
  lemma UnnamedTypesMixEdges()
    ensures var s := Registry.Run(ExampleEnv(), [UPLOAD, AS_INDEX_TO_A, AS_IMAGE_TO_B]);
      && Pulls.Pulled(ExampleEnv(), s.db, MANIFEST) == Some(AS_INDEX)
      && KeyOf(MANIFEST, AS_IMAGE.items[0]) in s.db.edges
      && !History.EdgesAre(s.db.edges, MANIFEST, AS_INDEX.items)
  {
    hide Registry.Apply, Manifests.Parse, Registry.Run, InsertEdges;
    var env := ExampleEnv();
    ReadBothWays();
    AfterUpload();
    RunOfThree(env, UPLOAD, AS_INDEX_TO_A, AS_IMAGE_TO_B);
    var s1 := Registry.Apply(env, Registry.INITIAL, UPLOAD);
    ExamplePush(s1, "a", OCI_IMAGE_INDEX, AS_INDEX);
    ExamplePush(Registry.Apply(env, s1, AS_INDEX_TO_A), "b", OCI_IMAGE_MANIFEST, AS_IMAGE);
  }

  // ---------------------------------------------------------------- one visit, two types

  const AS_INDEX_ITEM: Item := Item(Manifest, 0, Descriptor(OCI_IMAGE_INDEX, MANIFEST, 1, None, None, None))
  const AS_IMAGE_ITEM: Item := Item(Manifest, 1, Descriptor(OCI_IMAGE_MANIFEST, MANIFEST, 1, None, None, None))

  const ROOT_DOCUMENT: Document :=
    Document(ROOT, INDEX, OCI_IMAGE_INDEX, ImageIndex, None, None, [AS_INDEX_ITEM, AS_IMAGE_ITEM])

  /** The layer is missing. */
  const FILES: Walk.Layout := map[MANIFEST := BODY]

  /** What is unpacked: the index itself names more than one manifest, so the walk starts from it. */
  const ARCHIVE: Walk.Archive := Walk.Archive(Some(MARKER), Some(ROOT), FILES)

  lemma MarkerIsRead(codec: Codec)
    requires codec == ExampleEnv().codec
    ensures Walk.MarkerVersion(codec, ARCHIVE) == Some("1.0.0")
  {
    assert GetText(LAYOUT_MARKER, "imageLayoutVersion") == Some("1.0.0");
  }

  const RANK: Digest -> nat := d => if d == INDEX then 1 else 0

  lemma RootFields()
    ensures Get(TWO_TYPES, "schemaVersion") == Some(Integer(2))
            && GetText(TWO_TYPES, "mediaType") == Some(OCI_IMAGE_INDEX)
    ensures GetText(TWO_TYPES, "artifactType").None? && Get(TWO_TYPES, "subject").None?
    ensures GetArray(TWO_TYPES, "manifests") ==
            [DescriptorObject(OCI_IMAGE_INDEX, MANIFEST, 1), DescriptorObject(OCI_IMAGE_MANIFEST, MANIFEST, 1)]
    ensures KindOf(TWO_TYPES, OCI_IMAGE_INDEX) == Some(ImageIndex)
  {
    KindIsDecided(TWO_TYPES, OCI_IMAGE_INDEX);
    assert |OCI_IMAGE_INDEX| < |OCI_IMAGE_MANIFEST| < |DOCKER_IMAGE_MANIFEST|;
  }

  lemma RootParses(supplied: Option<string>)
    ensures Manifests.Parse(ExampleEnv().codec, ROOT, supplied) == Ok(ROOT_DOCUMENT)
  {
    hide KindOf, Get, GetText, GetArray, DecodeAll, Decode, DescriptorObject, Trim;
    RootFields();
    assert !IsSpace(OCI_IMAGE_INDEX[0]) && !IsSpace(OCI_IMAGE_INDEX[|OCI_IMAGE_INDEX| - 1]);
    DecodeObject(OCI_IMAGE_INDEX, MANIFEST, 1);
    DecodeObject(OCI_IMAGE_MANIFEST, MANIFEST, 1);
    var codec := ExampleEnv().codec;
    var values := GetArray(TWO_TYPES, "manifests");
    var decoded := DecodeAll(codec, Manifest, values);
    assert codec.descriptor(values[0]) == Some(AS_INDEX_ITEM.descriptor);
    assert codec.descriptor(values[1]) == Some(AS_IMAGE_ITEM.descriptor);
    assert decoded.Some? && decoded.value == [AS_INDEX_ITEM, AS_IMAGE_ITEM];
    assert codec.json(ROOT) == Some(TWO_TYPES) && codec.hash(ROOT) == INDEX;
    assert MediaType(TWO_TYPES, supplied) == Some(OCI_IMAGE_INDEX);
    assert SubjectOf(codec, TWO_TYPES) == Ok(None);
    assert Children(codec, TWO_TYPES, ImageIndex) == Some([AS_INDEX_ITEM, AS_IMAGE_ITEM]);
  }

  lemma BodyHasNoManifests(supplied: Option<string>)
    requires Manifests.Parse(ExampleEnv().codec, BODY, supplied).Ok?
    ensures forall item :: item in Manifests.Parse(ExampleEnv().codec, BODY, supplied).value.items ==>
              !item.relationship.Manifest?
  {
    hide Manifests.Parse, ItemsOf, MediaType, KindOf, Get, GetText, GetArray, Decode, DescriptorObject;
    var codec := ExampleEnv().codec;
    ParsedByKind(codec, BODY, supplied);
    ReadBothWays();
    ParsedByKind(codec, BODY, Some(OCI_IMAGE_MANIFEST));
    ParsedByKind(codec, BODY, Some(OCI_IMAGE_INDEX));
    var doc := Manifests.Parse(codec, BODY, supplied).value;
    assert doc.kind == AS_IMAGE.kind || doc.kind == AS_INDEX.kind;
    assert Some(doc.items) == Some(AS_IMAGE.items) || Some(doc.items) == Some(AS_INDEX.items);
    assert !AS_IMAGE.items[0].relationship.Manifest?;
  }

  lemma Ranked()
    ensures Walk.Acyclic(ExampleEnv().codec, FILES, RANK) && Walk.Descends(ExampleEnv().codec, RANK, ROOT)
  {
    hide Manifests.Parse;
    forall supplied
      ensures Manifests.Parse(ExampleEnv().codec, ROOT, supplied) == Ok(ROOT_DOCUMENT)
    {
      RootParses(supplied);
    }
    forall supplied: Option<string> | Manifests.Parse(ExampleEnv().codec, BODY, supplied).Ok?
      ensures forall item :: item in Manifests.Parse(ExampleEnv().codec, BODY, supplied).value.items ==>
                !item.relationship.Manifest?
    {
      BodyHasNoManifests(supplied);
    }
    DigestsDiffer();
    assert RANK(MANIFEST) < RANK(ExampleEnv().codec.hash(ROOT));
    assert Walk.Descends(ExampleEnv().codec, RANK, BODY);
    assert Walk.Descends(ExampleEnv().codec, RANK, ROOT);
  }

  /** The walk starts from the index. */
  lemma EntryIsRoot()
    ensures Walk.Entry(ExampleEnv().codec, ARCHIVE) == Some((ROOT, OCI_IMAGE_INDEX))
  {
    hide Manifests.Parse;
    var codec := ExampleEnv().codec;
    MarkerIsRead(codec);
    RootParses(Some(OCI_IMAGE_INDEX));
    var items := ROOT_DOCUMENT.items;
    assert items[..1][..0] == [] && items[..1][0] == AS_INDEX_ITEM && items[..2] == items;
    assert Walk.ManifestCount(items[..1]) == 1 && Walk.ManifestCount(items) == 2;
    Walk.RootsInOrder(items);
    hide Walk.Roots;
  }

  /** Nothing but the layer is missing, and the walk does not ask for it. */
  lemma WalkSucceeds()
    requires Walk.Acyclic(ExampleEnv().codec, FILES, RANK) && Walk.Descends(ExampleEnv().codec, RANK, ROOT)
    ensures Walk.Visits(ExampleEnv().codec, FILES, RANK, {}, ROOT, Some(OCI_IMAGE_INDEX)).Some?
  {
    hide Manifests.Parse, Walk.Acyclic, Walk.Descends, Walk.Visits, Walk.VisitsAll;
    var codec := ExampleEnv().codec;
    var items := ROOT_DOCUMENT.items;
    RootParses(Some(OCI_IMAGE_INDEX));
    ReadBothWays();
    DigestsDiffer();
    Walk.FileDescends(codec, FILES, RANK, AS_IMAGE_ITEM.descriptor);
    Walk.VisitsParts(codec, FILES, RANK, {}, ROOT, Some(OCI_IMAGE_INDEX));
    Walk.VisitsParts(codec, FILES, RANK, {}, BODY, Some(OCI_IMAGE_INDEX));
    Walk.VisitsParts(codec, FILES, RANK, {MANIFEST}, BODY, Some(OCI_IMAGE_MANIFEST));
    NothingToVisit(codec, {}, items[..0], 1);
    NothingToVisit(codec, {}, AS_INDEX.items, 0);
    Walk.VisitsOneMore(codec, FILES, RANK, {}, items, 1, 0);
    Walk.VisitsOneMore(codec, FILES, RANK, {}, items, 1, 1);
    assert items[..2] == items;
    assert Walk.VisitsItem(codec, FILES, RANK, {}, items[0], 1) == Some({} + {MANIFEST});
    assert {} + {MANIFEST} == {MANIFEST};
  }

  lemma NothingToVisit(codec: Codec, seen: set<Digest>, items: seq<Item>, bound: nat)
    requires Walk.Acyclic(codec, FILES, RANK) && items == []
    ensures Walk.VisitsAll(codec, FILES, RANK, seen, items, bound) == Some(seen)
  {
  }

  /** The layer is under the root all the same. */
  lemma RootIsUnsound()
    requires Walk.Acyclic(ExampleEnv().codec, FILES, RANK) && Walk.Descends(ExampleEnv().codec, RANK, ROOT)
    ensures !Walk.Sound(ExampleEnv().codec, FILES, RANK, ROOT, Some(OCI_IMAGE_INDEX))
  {
    hide Manifests.Parse, Walk.Sound, Walk.Acyclic, Walk.Descends;
    var codec := ExampleEnv().codec;
    RootParses(Some(OCI_IMAGE_INDEX));
    ReadBothWays();
    DigestsDiffer();
    Walk.SoundParts(codec, FILES, RANK, ROOT, Some(OCI_IMAGE_INDEX));
    Walk.FileDescends(codec, FILES, RANK, AS_IMAGE_ITEM.descriptor);
    Walk.SoundParts(codec, FILES, RANK, BODY, Some(OCI_IMAGE_MANIFEST));
    assert !Walk.SoundItem(codec, FILES, RANK, AS_IMAGE.items[0], 0);
    assert !Walk.Sound(codec, FILES, RANK, BODY, Some(OCI_IMAGE_MANIFEST));
    assert !Walk.SoundItem(codec, FILES, RANK, ROOT_DOCUMENT.items[1], 1);
  }

  /**
   The walk enters the body as an index, of nothing. When it meets it again as an image, it parses
   it, finds the digest visited, and never asks for the layer: it succeeds, but not everything under
   the root is sound.
   */
  method TwoTypesOneVisit() returns (r: Result<Walk.PreparedImage, Walk.Failure>)
    ensures r.Ok? && Walk.Prepared(ExampleEnv().codec, FILES, r.value)
    ensures Walk.Acyclic(ExampleEnv().codec, FILES, RANK) && Walk.Descends(ExampleEnv().codec, RANK, ROOT)
    ensures Walk.Entry(ExampleEnv().codec, ARCHIVE) == Some((ROOT, OCI_IMAGE_INDEX))
    ensures !Walk.Sound(ExampleEnv().codec, FILES, RANK, ROOT, Some(OCI_IMAGE_INDEX))
  {
    hide Manifests.Parse, Walk.Sound, Walk.Acyclic, Walk.Descends, Walk.Entry, Walk.Visits, Walk.Prepared;
    Ranked();
    EntryIsRoot();
    WalkSucceeds();
    RootIsUnsound();
    r := Walk.PrepareOciArchive(ExampleEnv().codec, ARCHIVE, RANK);
  }
}
