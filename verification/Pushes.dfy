/** Why the manifests of a prepared image pass the registry's checks when they are pushed in order. */
module Pushes {
  import opened Common
  import opened Digests
  import opened BlobTables
  import opened Manifests
  import opened Registry
  import opened Wire
  import opened Network
  import opened Text
  import opened Examples
  import Walk

  /** The blobs of the image are committed and linked in the repository. */
  ghost predicate BlobsThere(s: State, repo: Repo, blobs: seq<Walk.BlobFile>) {
    forall k :: 0 <= k < |blobs| ==> (repo, blobs[k].digest) in s.t.links && IsLive(s.t, blobs[k].digest)
  }

  /** The first `n` manifests are there. */
  ghost predicate ManifestsThere(s: State, repo: Repo, ms: seq<Walk.ManifestObject>, n: nat)
    requires n <= |ms|
  {
    forall i :: 0 <= i < n ==> (repo, ms[i].digest) in s.db.live && ms[i].digest in s.db.manifests
  }

  lemma ThereStays(s: State, s': State, target: Target, image: Walk.PreparedImage, n: nat)
    requires Grows(s, s', target) && n <= |image.manifests|
    ensures BlobsThere(s, target.repo, image.blobs) ==> BlobsThere(s', target.repo, image.blobs)
    ensures ManifestsThere(s, target.repo, image.manifests, n) ==> ManifestsThere(s', target.repo, image.manifests, n)
  {
    assert forall d :: IsLive(s.t, d) ==> IsLive(s'.t, d);
    hide IsLive;
  }

  /** The walk does not look at a subject; the registry wants its size not to be negative. */
  ghost predicate BadSubject(codec: Codec, m: Walk.ManifestObject) {
    exists item :: item in Walk.Items(codec, m) && item.relationship.Subject? && item.descriptor.size < 0
  }

  lemma {:induction false} OnlyInvalid(s: State, repo: Repo, items: seq<Item>)
    requires forall i :: 0 <= i < |items| ==> ItemRefusal(s, repo, items[i]) in {None, Some(ManifestInvalid)}
    ensures DependencyRefusal(s, repo, items) in {None, Some(ManifestInvalid)}
  {
    hide ItemRefusal;
    if items != [] {
      OnlyInvalid(s, repo, items[..|items| - 1]);
    }
  }

  /** A blob of the image is ready, at its descriptor's size. */
  lemma BlobIsReady(codec: Codec, s: State, repo: Repo, layout: Walk.Layout, image: Walk.PreparedImage, i: nat,
                    item: Item)
    requires Walk.Prepared(codec, layout, image)
    requires Consistent(codec.hash, s.t) && SizesTrue(codec.hash, layout, s.t) && BlobsThere(s, repo, image.blobs)
    requires i < |image.manifests| && item in Walk.Items(codec, image.manifests[i]) && NeedsBlob(item)
    ensures BlobReady(s.t, repo, item) && Holds(codec.hash, s.t, item.descriptor.digest) && item.descriptor.size >= 0
  {
    hide Walk.Items, Walk.PostOrder, Walk.Found, Walk.BlobFrom;
    var d := item.descriptor.digest;
    var k :| 0 <= k < |image.blobs| && image.blobs[k].digest == d && image.blobs[k].size == item.descriptor.size;
    assert Walk.IsFile(codec, layout, d, item.descriptor.size);
    assert IsLive(s.t, d) && Holds(codec.hash, s.t, d);
  }

  lemma ItemPasses(codec: Codec, s: State, repo: Repo, layout: Walk.Layout, image: Walk.PreparedImage, i: nat,
                   item: Item)
    requires Walk.Prepared(codec, layout, image)
    requires Consistent(codec.hash, s.t) && SizesTrue(codec.hash, layout, s.t) && BlobsThere(s, repo, image.blobs)
    requires i < |image.manifests| && ManifestsThere(s, repo, image.manifests, i)
    requires item in Walk.Items(codec, image.manifests[i])
    ensures ItemRefusal(s, repo, item) ==
            if item.relationship.Subject? && item.descriptor.size < 0 then Some(ManifestInvalid) else None
  {
    hide Walk.Items, Consistent, BlobsThere, SizesTrue, Walk.Found, Walk.BlobFrom, Walk.Sendable;
    if NeedsBlob(item) {
      BlobIsReady(codec, s, repo, layout, image, i, item);
    } else if item.relationship.Manifest? {
      var d := item.descriptor.digest;
      assert Walk.Among(image.manifests, i, d) && Walk.IsManifestFile(codec, layout, item.descriptor);
      assert item.descriptor.size >= 0;
      assert (repo, d) in s.db.live;
    }
  }

  lemma Described(codec: Codec, m: Walk.ManifestObject)
    requires Walk.Sendable(codec, m)
    ensures var parsed := Manifests.Parse(codec, m.bytes, Some(m.mediaType));
      parsed.Ok? && parsed.value.digest == m.digest && parsed.value.items == Walk.Items(codec, m)
      && |m.bytes| <= MANIFEST_LIMIT
  {
  }

  /**
   Pushed after its children and blobs, a manifest of the image passes the dependency check
   exactly when its subject, if it has one, has no negative size; then only the tag can stop it.
   */
  lemma PassesUnlessBadSubject(env: Env, s: State, target: Target, layout: Walk.Layout, image: Walk.PreparedImage,
                               i: nat, reference: string)
    requires Walk.Prepared(env.codec, layout, image)
    requires Consistent(env.codec.hash, s.t) && SizesTrue(env.codec.hash, layout, s.t)
             && BlobsThere(s, target.repo, image.blobs)
    requires i < |image.manifests| && ManifestsThere(s, target.repo, image.manifests, i)
    requires Digests.Parse(reference).Ok? ==> Digests.Parse(reference).value == image.manifests[i].digest
    ensures var m := image.manifests[i];
            PushRefusal(env, s, target.repo, reference, Some(m.mediaType), m.bytes) ==
            if BadSubject(env.codec, m) then Some(ManifestInvalid)
            else if Digests.Parse(reference).Ok? then None
            else TagRefusal(env, s.db, target.repo, reference, m.digest)
  {
    hide Manifests.Parse, Digests.Parse, TagRefusal, Consistent, BlobsThere, ManifestsThere, SizesTrue, Walk.Found,
          Walk.BlobFrom;
    hide ItemRefusal;
    var m := image.manifests[i];
    var items := Walk.Items(env.codec, m);
    assert Walk.Sendable(env.codec, m);
    forall item | item in items
      ensures ItemRefusal(s, target.repo, item) ==
              if item.relationship.Subject? && item.descriptor.size < 0 then Some(ManifestInvalid) else None
    {
      ItemPasses(env.codec, s, target.repo, layout, image, i, item);
    }
    hide Walk.Prepared;
    OnlyInvalid(s, target.repo, items);
    assert BadSubject(env.codec, m) <==> DependencyRefusal(s, target.repo, items).Some? by {
      if BadSubject(env.codec, m) {
        var item :| item in items && item.relationship.Subject? && item.descriptor.size < 0;
        var k :| 0 <= k < |items| && items[k] == item;
      }
      if DependencyRefusal(s, target.repo, items).Some? {
        var k :| 0 <= k < |items| && ItemRefusal(s, target.repo, items[k]).Some?;
        assert items[k] in items;
      }
    }
    Described(env.codec, m);
    hide Walk.Items, BadSubject, DependencyRefusal;
  }

  /** What a push that succeeded has achieved. */
  ghost predicate Complete(env: Env, s: State, target: Target, image: Walk.PreparedImage) {
    && Resolves(s, target.repo, target.reference) == Some(image.root)
    && (forall i :: 0 <= i < |image.manifests| ==> (target.repo, image.manifests[i].digest) in s.db.live)
    && (forall i, item :: 0 <= i < |image.manifests| && item in Walk.Items(env.codec, image.manifests[i])
                          && NeedsBlob(item) ==>
          BlobReady(s.t, target.repo, item) && Holds(env.codec.hash, s.t, item.descriptor.digest))
  }

  lemma AllThereIsComplete(env: Env, s: State, target: Target, layout: Walk.Layout, image: Walk.PreparedImage)
    requires Walk.Prepared(env.codec, layout, image)
    requires Consistent(env.codec.hash, s.t) && SizesTrue(env.codec.hash, layout, s.t)
             && BlobsThere(s, target.repo, image.blobs)
    requires ManifestsThere(s, target.repo, image.manifests, |image.manifests|)
    requires match Digests.Parse(target.reference)
             case Ok(d) => d == image.root
             case Err(_) => Lookup(s.db.tags, (target.repo, target.reference)) == Some(image.root)
    ensures Complete(env, s, target, image)
  {
    hide Digests.Parse, Walk.Items, Walk.PostOrder, Walk.Found, Walk.BlobFrom, Consistent, BlobsThere, SizesTrue,
          Holds, BlobReady;
    forall i, item | 0 <= i < |image.manifests| && item in Walk.Items(env.codec, image.manifests[i]) && NeedsBlob(item)
      ensures BlobReady(s.t, target.repo, item) && Holds(env.codec.hash, s.t, item.descriptor.digest)
    {
      BlobIsReady(env.codec, s, target.repo, layout, image, i, item);
    }
    var last := image.manifests[|image.manifests| - 1];
    assert (target.repo, last.digest) in s.db.live;
  }

  // ---------------------------------------------------------------- a subject of negative size

  const SUBJECT_DESCRIPTOR: Descriptor := Descriptor("subject", LAYER, -1, None, None, None)

  /** An image of nothing that refers to a subject, and an index that names it. */
  const ONLY_SUBJECT: Json := Object(map[
    "schemaVersion" := Integer(2),
    "mediaType" := Str(OCI_IMAGE_MANIFEST),
    "subject" := DescriptorObject("subject", LAYER, -1)])
  const ONE_IMAGE: Json := Object(map[
    "schemaVersion" := Integer(2),
    "mediaType" := Str(OCI_IMAGE_INDEX),
    "manifests" := Array([DescriptorObject(OCI_IMAGE_MANIFEST, MANIFEST, 1)])])

  /** One byte each stands for their texts. */
  const BODY: Bytes := [2]
  const ROOT: Bytes := [3]

  const FILES: Walk.Layout := map[MANIFEST := BODY]
  const ARCHIVE: Walk.Archive := Walk.Archive(Some(MARKER), Some(ROOT), FILES)
  const RANK: Digest -> nat := d => if d == INDEX then 1 else 0

  function ExampleEnv(): Env {
    Env(Codec(bytes => if bytes == ROOT then INDEX else MANIFEST,
              bytes => if bytes == BODY then Some(ONLY_SUBJECT) else if bytes == ROOT then Some(ONE_IMAGE)
                       else if bytes == MARKER then Some(LAYOUT_MARKER) else None,
              Decode),
        (pattern, tag) => Some(false))
  }

  const IMAGE: Document := Document(BODY, MANIFEST, OCI_IMAGE_MANIFEST, ImageManifest, None, Some(SUBJECT_DESCRIPTOR),
                                    [Item(Subject, 0, SUBJECT_DESCRIPTOR)])
  const IMAGE_ITEM: Item := Item(Manifest, 0, Descriptor(OCI_IMAGE_MANIFEST, MANIFEST, 1, None, None, None))
  const ROOT_DOCUMENT: Document := Document(ROOT, INDEX, OCI_IMAGE_INDEX, ImageIndex, None, None, [IMAGE_ITEM])

  lemma TypesAreTrimmed()
    ensures Trim(OCI_IMAGE_MANIFEST) == OCI_IMAGE_MANIFEST && Trim(OCI_IMAGE_INDEX) == OCI_IMAGE_INDEX
  {
    hide Trim;
    assert OCI_IMAGE_MANIFEST[0] == 'a' && OCI_IMAGE_MANIFEST[|OCI_IMAGE_MANIFEST| - 1] == 'n';
    assert OCI_IMAGE_INDEX[0] == 'a' && OCI_IMAGE_INDEX[|OCI_IMAGE_INDEX| - 1] == 'n';
    assert !IsSpace('a') && !IsSpace('n');
  }

  lemma ImageFields()
    ensures Get(ONLY_SUBJECT, "schemaVersion") == Some(Integer(2))
    ensures GetText(ONLY_SUBJECT, "mediaType") == Some(OCI_IMAGE_MANIFEST)
    ensures Get(ONLY_SUBJECT, "config").None? && GetArray(ONLY_SUBJECT, "layers") == []
    ensures GetText(ONLY_SUBJECT, "artifactType").None?
    ensures Get(ONLY_SUBJECT, "subject") == Some(DescriptorObject("subject", LAYER, -1))
  {
    hide DescriptorObject;
  }

  lemma ImageParses(supplied: Option<string>)
    ensures Manifests.Parse(ExampleEnv().codec, BODY, supplied) == Ok(IMAGE)
  {
    hide Trim, DecodeAll, Decode, DescriptorObject, Get, GetText, GetArray, KindOf;
    ImageFields();
    TypesAreTrimmed();
    DecodeObject("subject", LAYER, -1);
    KindIsDecided(ONLY_SUBJECT, OCI_IMAGE_MANIFEST);
    var codec := ExampleEnv().codec;
    assert codec.json(BODY) == Some(ONLY_SUBJECT) && codec.hash(BODY) == MANIFEST;
    assert MediaType(ONLY_SUBJECT, supplied) == Some(OCI_IMAGE_MANIFEST);
    assert DecodeAll(codec, Config, []).value == [] && DecodeAll(codec, Layer, []).value == [];
    assert SubjectOf(codec, ONLY_SUBJECT) == Ok(Some(SUBJECT_DESCRIPTOR));
    assert Children(codec, ONLY_SUBJECT, ImageManifest).value == [];
    hide SubjectOf, Children;
    assert [] + IMAGE.items == IMAGE.items;
  }

  lemma RootFields()
    ensures Get(ONE_IMAGE, "schemaVersion") == Some(Integer(2))
            && GetText(ONE_IMAGE, "mediaType") == Some(OCI_IMAGE_INDEX)
    ensures GetText(ONE_IMAGE, "artifactType").None? && Get(ONE_IMAGE, "subject").None?
    ensures GetArray(ONE_IMAGE, "manifests") == [DescriptorObject(OCI_IMAGE_MANIFEST, MANIFEST, 1)]
    ensures KindOf(ONE_IMAGE, OCI_IMAGE_INDEX) == Some(ImageIndex)
  {
    KindIsDecided(ONE_IMAGE, OCI_IMAGE_INDEX);
    assert |OCI_IMAGE_INDEX| < |OCI_IMAGE_MANIFEST| < |DOCKER_IMAGE_MANIFEST|;
  }

  lemma RootParses(supplied: Option<string>)
    ensures Manifests.Parse(ExampleEnv().codec, ROOT, supplied) == Ok(ROOT_DOCUMENT)
  {
    hide KindOf, Get, GetText, GetArray, DecodeAll, Decode, DescriptorObject, Trim;
    RootFields();
    TypesAreTrimmed();
    DecodeObject(OCI_IMAGE_MANIFEST, MANIFEST, 1);
    var codec := ExampleEnv().codec;
    var values := GetArray(ONE_IMAGE, "manifests");
    var decoded := DecodeAll(codec, Manifest, values);
    assert codec.descriptor(values[0]) == Some(IMAGE_ITEM.descriptor);
    assert decoded.Some? && decoded.value == [IMAGE_ITEM];
    assert codec.json(ROOT) == Some(ONE_IMAGE) && codec.hash(ROOT) == INDEX;
    assert MediaType(ONE_IMAGE, supplied) == Some(OCI_IMAGE_INDEX);
    assert SubjectOf(codec, ONE_IMAGE) == Ok(None);
    assert Children(codec, ONE_IMAGE, ImageIndex) == Some([IMAGE_ITEM]);
  }

  lemma Ranked()
    ensures Walk.Acyclic(ExampleEnv().codec, FILES, RANK)
    ensures Walk.Descends(ExampleEnv().codec, RANK, ROOT) && Walk.Descends(ExampleEnv().codec, RANK, BODY)
  {
    hide Manifests.Parse;
    forall supplied
      ensures Manifests.Parse(ExampleEnv().codec, ROOT, supplied) == Ok(ROOT_DOCUMENT)
      ensures Manifests.Parse(ExampleEnv().codec, BODY, supplied) == Ok(IMAGE)
    {
      RootParses(supplied);
      ImageParses(supplied);
    }
    DigestsDiffer();
    assert RANK(MANIFEST) < RANK(ExampleEnv().codec.hash(ROOT));
    assert Walk.Descends(ExampleEnv().codec, RANK, BODY);
    assert Walk.Descends(ExampleEnv().codec, RANK, ROOT);
  }

  /** The index names one manifest, so the walk starts from that, and finds nothing wrong with it. */
  lemma EntryIsSound()
    requires Walk.Acyclic(ExampleEnv().codec, FILES, RANK) && Walk.Descends(ExampleEnv().codec, RANK, BODY)
    ensures Walk.Entry(ExampleEnv().codec, ARCHIVE) == Some((BODY, OCI_IMAGE_MANIFEST))
    ensures Walk.Sound(ExampleEnv().codec, FILES, RANK, BODY, Some(OCI_IMAGE_MANIFEST))
  {
    hide Manifests.Parse, Walk.Acyclic, Walk.Descends;
    var codec := ExampleEnv().codec;
    assert GetText(LAYOUT_MARKER, "imageLayoutVersion") == Some("1.0.0");
    assert Walk.MarkerVersion(codec, ARCHIVE) == Some("1.0.0");
    RootParses(Some(OCI_IMAGE_INDEX));
    ImageParses(Some(OCI_IMAGE_MANIFEST));
    DigestsDiffer();
    assert ROOT_DOCUMENT.items[..0] == [];
    assert Walk.Roots(ROOT_DOCUMENT.items) == [IMAGE_ITEM.descriptor];
    assert Walk.IsManifestFile(codec, FILES, IMAGE_ITEM.descriptor);
    hide Walk.Roots, Walk.Sound;
    Walk.SoundParts(codec, FILES, RANK, BODY, Some(OCI_IMAGE_MANIFEST));
  }

  lemma SubjectIsRefused(s: State, repo: Repo, reference: string, supplied: Option<string>)
    requires Digests.Parse(reference).Err?
    ensures PushRefusal(ExampleEnv(), s, repo, reference, supplied, BODY) == Some(ManifestInvalid)
  {
    hide Manifests.Parse, Digests.Parse;
    ImageParses(supplied);
    assert IMAGE.items[..0] == [];
  }

  /** The client prepares this image without complaint, and no registry takes it, whatever its state. */
  method NegativeSubjectIsRefused() returns (r: Result<Walk.PreparedImage, Walk.Failure>)
    ensures r.Ok? && Walk.Prepared(ExampleEnv().codec, FILES, r.value) && r.value.manifests != []
    ensures var m := r.value.manifests[|r.value.manifests| - 1];
      forall s, repo, reference :: Digests.Parse(reference).Err? ==>
        PushRefusal(ExampleEnv(), s, repo, reference, Some(m.mediaType), m.bytes) == Some(ManifestInvalid)
  {
    hide Manifests.Parse, Digests.Parse, Walk.Sound, Walk.Acyclic, Walk.Descends, Walk.Entry, Walk.Visits,
          Walk.Prepared, PushRefusal;
    Ranked();
    EntryIsSound();
    r := Walk.PrepareOciArchive(ExampleEnv().codec, ARCHIVE, RANK);
    var m := r.value.manifests[|r.value.manifests| - 1];
    forall s, repo, reference | Digests.Parse(reference).Err?
      ensures PushRefusal(ExampleEnv(), s, repo, reference, Some(m.mediaType), m.bytes) == Some(ManifestInvalid)
    {
      SubjectIsRefused(s, repo, reference, Some(m.mediaType));
    }
  }
}
