/** The image a walk prepares is what the root reaches, and nothing under it was unsound. */
module Reachability {
  import opened Common
  import opened Digests
  import opened Manifests
  import opened Walk

  type Graph = Digest -> seq<Item>

  ghost predicate Edge(graph: Graph, a: Digest, b: Digest) {
    exists k :: 0 <= k < |graph(a)| && graph(a)[k].relationship.Manifest? && graph(a)[k].descriptor.digest == b
  }

  ghost predicate IsPath(graph: Graph, path: seq<Digest>, a: Digest, b: Digest) {
    && path != [] && path[0] == a && path[|path| - 1] == b
    && forall k :: 0 <= k < |path| - 1 ==> Edge(graph, path[k], path[k + 1])
  }

  ghost predicate Reaches(graph: Graph, a: Digest, b: Digest) {
    exists path :: IsPath(graph, path, a, b)
  }

  /** The graph gives every manifest of the image the descriptors it was read with. */
  ghost predicate Describes(codec: Codec, graph: Graph, ms: seq<ManifestObject>) {
    forall i :: 0 <= i < |ms| ==> graph(ms[i].digest) == Items(codec, ms[i])
  }

  lemma {:induction false} OutputIsReached(codec: Codec, layout: Layout, image: PreparedImage, graph: Graph, i: nat)
    requires Prepared(codec, layout, image) && Describes(codec, graph, image.manifests)
    requires i < |image.manifests|
    ensures Reaches(graph, image.root, image.manifests[i].digest)
    decreases |image.manifests| - i
  {
    hide PostOrder, Items;
    var ms := image.manifests;
    if i == |ms| - 1 {
      assert IsPath(graph, [image.root], image.root, image.root);
    } else {
      assert Found(codec, layout, ms, i);
      var j :| i < j < |ms| && Names(codec, layout, Items(codec, ms[j]), ms[i]);
      OutputIsReached(codec, layout, image, graph, j);
      assert Edge(graph, ms[j].digest, ms[i].digest);
      OneStepFurther(graph, image.root, ms[j].digest, ms[i].digest);
    }
  }

  lemma OneStepFurther(graph: Graph, a: Digest, b: Digest, c: Digest)
    requires Reaches(graph, a, b) && Edge(graph, b, c)
    ensures Reaches(graph, a, c)
  {
    hide Edge;
    var path :| IsPath(graph, path, a, b);
    var longer := path + [c];
    assert forall k :: 0 <= k < |path| ==> longer[k] == path[k];
    assert IsPath(graph, longer, a, c);
  }

  lemma {:induction false} ReachedIsOutput(codec: Codec, layout: Layout, image: PreparedImage, graph: Graph,
                                           path: seq<Digest>, b: Digest)
    requires Prepared(codec, layout, image) && Describes(codec, graph, image.manifests)
    requires IsPath(graph, path, image.root, b)
    ensures Among(image.manifests, |image.manifests|, b)
    decreases |path|
  {
    hide Items, Found, Edge, PostOrder, IsFile, BlobFrom, NeedsBlob, Names;
    var ms := image.manifests;
    if |path| > 1 {
      var front := path[..|path| - 1];
      var a := front[|front| - 1];
      assert Edge(graph, path[|front| - 1], path[|front|]);
      ReachedIsOutput(codec, layout, image, graph, front, a);
      ChildIsOutput(codec, layout, image, graph, a, b);
    }
  }

  lemma ChildIsOutput(codec: Codec, layout: Layout, image: PreparedImage, graph: Graph, a: Digest, b: Digest)
    requires Prepared(codec, layout, image) && Describes(codec, graph, image.manifests)
    requires Among(image.manifests, |image.manifests|, a) && Edge(graph, a, b)
    ensures Among(image.manifests, |image.manifests|, b)
  {
    hide Items, Found, IsFile, BlobFrom, NeedsBlob, Sendable;
    var ms := image.manifests;
    var i :| 0 <= i < |ms| && ms[i].digest == a;
    var k :| 0 <= k < |graph(a)| && graph(a)[k].relationship.Manifest? && graph(a)[k].descriptor.digest == b;
    assert graph(a)[k] in Items(codec, ms[i]);
    assert Among(ms, i, b);
  }

  /** The image holds exactly the manifests the root reaches. */
  lemma ExactlyReachable(codec: Codec, layout: Layout, image: PreparedImage, graph: Graph, d: Digest)
    requires Prepared(codec, layout, image) && Describes(codec, graph, image.manifests)
    ensures Among(image.manifests, |image.manifests|, d) <==> Reaches(graph, image.root, d)
  {
    hide Prepared, Describes, IsPath;
    if Among(image.manifests, |image.manifests|, d) {
      var i :| 0 <= i < |image.manifests| && image.manifests[i].digest == d;
      OutputIsReached(codec, layout, image, graph, i);
    }
    if Reaches(graph, image.root, d) {
      var path :| IsPath(graph, path, image.root, d);
      ReachedIsOutput(codec, layout, image, graph, path, d);
    }
  }

  // ---------------------------------------------------------------- the files alone

  /** A file and the media type some descriptor gives it. */
  type Ref = (Digest, string)

  /** Reading the one leads to the other. */
  ghost predicate Leads(codec: Codec, files: Layout, a: Ref, b: Ref) {
    && a.0 in files
    && var parsed := Manifests.Parse(codec, files[a.0], Some(a.1));
       && parsed.Ok?
       && exists k :: 0 <= k < |parsed.value.items| && IsRef(parsed.value.items[k], b)
  }

  predicate IsRef(item: Item, b: Ref) {
    item.relationship.Manifest? && item.descriptor.digest == b.0 && item.descriptor.mediaType == b.1
  }

  ghost predicate IsTrail(codec: Codec, files: Layout, trail: seq<Ref>, a: Ref, b: Ref) {
    && trail != [] && trail[0] == a && trail[|trail| - 1] == b
    && forall k :: 0 <= k < |trail| - 1 ==> Leads(codec, files, trail[k], trail[k + 1])
  }

  ghost predicate LeadsOn(codec: Codec, files: Layout, a: Ref, b: Ref) {
    exists trail :: IsTrail(codec, files, trail, a, b)
  }

  /** Under this type, the manifest is of the kind that it was for the walk. */
  ghost predicate ReadAlike(codec: Codec, m: ManifestObject, mediaType: string) {
    var other := Manifests.Parse(codec, m.bytes, Some(mediaType));
    var own := Manifests.Parse(codec, m.bytes, Some(m.mediaType));
    other == own || (other.Ok? && own.Ok? && other.value.kind == own.value.kind)
  }

  /** Then it has the same descriptors. */
  lemma AlikeItems(codec: Codec, m: ManifestObject, mediaType: string)
    requires Sendable(codec, m) && ReadAlike(codec, m, mediaType)
    ensures var parsed := Manifests.Parse(codec, m.bytes, Some(mediaType));
            parsed.Ok? && parsed.value.items == Items(codec, m)
  {
    hide Manifests.Parse;
    SameKindSameItems(codec, m.bytes, Some(mediaType), Some(m.mediaType));
  }

  /** The files, with the entry document under its own digest. */
  function WithEntry(codec: Codec, archive: Archive): Layout
    requires Entry(codec, archive).Some?
  {
    var entry := Entry(codec, archive).value.0;
    archive.files[codec.hash(entry) := entry]
  }

  /** Where the walk starts. */
  function EntryRef(codec: Codec, archive: Archive): Ref
    requires Entry(codec, archive).Some?
  {
    (codec.hash(Entry(codec, archive).value.0), Entry(codec, archive).value.1)
  }

  /** Every manifest of the image is a file; the root is the entry document. */
  ghost predicate InFiles(files: Layout, image: PreparedImage) {
    forall i :: 0 <= i < |image.manifests| ==>
      image.manifests[i].digest in files && files[image.manifests[i].digest] == image.manifests[i].bytes
  }

  lemma ImageInFiles(codec: Codec, archive: Archive, image: PreparedImage)
    requires Prepared(codec, archive.files, image)
    requires Entry(codec, archive).Some? && Starts(codec, image, Entry(codec, archive).value)
    ensures InFiles(WithEntry(codec, archive), image) && image.root == EntryRef(codec, archive).0
    ensures ReadAlike(codec, image.manifests[|image.manifests| - 1], EntryRef(codec, archive).1)
  {
    hide Entry, Manifests.Parse, Items, PostOrder, Names, BlobFrom, NeedsBlob;
    var ms := image.manifests;
    RootIsEntry(codec, archive, image);
    forall i | 0 <= i < |ms|
      ensures ms[i].digest in WithEntry(codec, archive) && WithEntry(codec, archive)[ms[i].digest] == ms[i].bytes
    {
      if i < |ms| - 1 { FileOf(codec, archive.files, image, i); }
    }
  }

  lemma RootIsEntry(codec: Codec, archive: Archive, image: PreparedImage)
    requires Prepared(codec, archive.files, image)
    requires Entry(codec, archive).Some? && Starts(codec, image, Entry(codec, archive).value)
    ensures image.root == codec.hash(Entry(codec, archive).value.0)
    ensures image.manifests[|image.manifests| - 1].bytes == Entry(codec, archive).value.0
  {
    hide Entry, Manifests.Parse;
    assert Sendable(codec, image.manifests[|image.manifests| - 1]);
  }

  lemma FileOf(codec: Codec, layout: Layout, image: PreparedImage, i: nat)
    requires Prepared(codec, layout, image) && i < |image.manifests| - 1
    ensures var m := image.manifests[i]; m.digest != image.root && m.digest in layout && layout[m.digest] == m.bytes
  {
    hide Manifests.Parse, Items, BlobFrom, NeedsBlob;
    assert Found(codec, layout, image.manifests, i);
  }

  lemma OneRefFurther(codec: Codec, files: Layout, a: Ref, b: Ref, c: Ref)
    requires LeadsOn(codec, files, a, b) && Leads(codec, files, b, c)
    ensures LeadsOn(codec, files, a, c)
  {
    hide Leads;
    var trail :| IsTrail(codec, files, trail, a, b);
    var longer := trail + [c];
    assert forall k :: 0 <= k < |trail| ==> longer[k] == trail[k];
    assert IsTrail(codec, files, longer, a, c);
  }

  /** A manifest read alike leads to what its descriptors name. */
  lemma LeadsToItems(codec: Codec, files: Layout, m: ManifestObject, mediaType: string, b: Ref)
    requires m.digest in files && files[m.digest] == m.bytes && ReadAlike(codec, m, mediaType) && Sendable(codec, m)
    ensures Leads(codec, files, (m.digest, mediaType), b) <==>
              exists k :: 0 <= k < |Items(codec, m)| && IsRef(Items(codec, m)[k], b)
  {
    hide Manifests.Parse, IsRef;
    var parsed := Manifests.Parse(codec, files[m.digest], Some(mediaType));
    var items := Items(codec, m);
    AlikeItems(codec, m, mediaType);
    if k :| 0 <= k < |items| && IsRef(items[k], b) {
      assert IsRef(parsed.value.items[k], b);
    }
  }

  /** Every manifest of the image is reached through the files, under a type that reads it as the walk did. */
  lemma {:induction false} OutputIsLedTo(codec: Codec, layout: Layout, files: Layout, image: PreparedImage, entry: Ref,
                                         i: nat)
      returns (mediaType: string)
    requires Prepared(codec, layout, image) && InFiles(files, image) && entry.0 == image.root
    requires ReadAlike(codec, image.manifests[|image.manifests| - 1], entry.1)
    requires i < |image.manifests|
    ensures LeadsOn(codec, files, entry, (image.manifests[i].digest, mediaType))
    ensures ReadAlike(codec, image.manifests[i], mediaType)
    decreases |image.manifests| - i
  {
    hide Items, Leads, ReadAlike, Sendable, BlobFrom, NeedsBlob, NamedBy;
    var ms := image.manifests;
    if i == |ms| - 1 {
      mediaType := entry.1;
      assert IsTrail(codec, files, [entry], entry, entry);
    } else {
      assert Found(codec, layout, ms, i);
      var j :| i < j < |ms| && Names(codec, layout, Items(codec, ms[j]), ms[i]);
      var k :| 0 <= k < |Items(codec, ms[j])| && NamedBy(codec, layout, Items(codec, ms[j])[k], ms[i]);
      var parentType := OutputIsLedTo(codec, layout, files, image, entry, j);
      var item := Items(codec, ms[j])[k];
      mediaType := item.descriptor.mediaType;
      NamedAlike(codec, layout, item, ms[i]);
      LeadsToItems(codec, files, ms[j], parentType, (ms[i].digest, mediaType));
      OneRefFurther(codec, files, entry, (ms[j].digest, parentType), (ms[i].digest, mediaType));
    }
  }

  lemma NamedAlike(codec: Codec, layout: Layout, item: Item, m: ManifestObject)
    requires NamedBy(codec, layout, item, m)
    ensures IsRef(item, (m.digest, item.descriptor.mediaType)) && ReadAlike(codec, m, item.descriptor.mediaType)
  {
    hide Manifests.Parse, IsFile;
  }

  /** However a descriptor of the image types a manifest, it reads as it was read by the walk. */
  ghost predicate TypesAgree(codec: Codec, ms: seq<ManifestObject>) {
    forall i, j, item :: 0 <= i < |ms| && 0 <= j < |ms| && item in Items(codec, ms[i])
                         && item.relationship.Manifest? && item.descriptor.digest == ms[j].digest ==>
      ReadAlike(codec, ms[j], item.descriptor.mediaType)
  }

  /** Manifests that name their own type leave no choice. */
  lemma NamedTypesAgree(codec: Codec, ms: seq<ManifestObject>)
    requires forall i :: 0 <= i < |ms| ==> SelfDescribing(codec, ms[i].bytes)
    ensures TypesAgree(codec, ms)
  {
    hide Items, SelfDescribing, Manifests.Parse;
    forall j, mediaType | 0 <= j < |ms|
      ensures ReadAlike(codec, ms[j], mediaType)
    {
      SelfDescribingReadsOneWay(codec, ms[j].bytes, Some(mediaType), Some(ms[j].mediaType));
    }
  }

  lemma {:induction false} LedToIsOutput(codec: Codec, layout: Layout, files: Layout, image: PreparedImage, entry: Ref,
                                         trail: seq<Ref>, b: Ref) returns (i: nat)
    requires Prepared(codec, layout, image) && InFiles(files, image) && entry.0 == image.root
    requires ReadAlike(codec, image.manifests[|image.manifests| - 1], entry.1)
    requires TypesAgree(codec, image.manifests) && IsTrail(codec, files, trail, entry, b)
    ensures i < |image.manifests| && image.manifests[i].digest == b.0 && ReadAlike(codec, image.manifests[i], b.1)
    decreases |trail|
  {
    hide Items, Leads, ReadAlike, Sendable, BlobFrom, NeedsBlob, Found, IsFile;
    var ms := image.manifests;
    if |trail| == 1 {
      i := |ms| - 1;
    } else {
      var front := trail[..|trail| - 1];
      var a := front[|front| - 1];
      assert Leads(codec, files, trail[|front| - 1], trail[|front|]);
      var j := LedToIsOutput(codec, layout, files, image, entry, front, a);
      LeadsToItems(codec, files, ms[j], a.1, b);
      var k :| 0 <= k < |Items(codec, ms[j])| && IsRef(Items(codec, ms[j])[k], b);
      var item := Items(codec, ms[j])[k];
      assert item in Items(codec, ms[j]) && Among(ms, j, b.0);
      i :| 0 <= i < j && ms[i].digest == b.0;
    }
  }

  /**
   Every manifest of the image is led to from the entry document by the files and the types their
   descriptors give. If the types agree, as they do for manifests that name their own, the image
   holds exactly what is led to.
   */
  lemma WalkIsReachability(codec: Codec, archive: Archive, image: PreparedImage, d: Digest)
    requires Prepared(codec, archive.files, image)
    requires Entry(codec, archive).Some? && Starts(codec, image, Entry(codec, archive).value)
    ensures var (files, entry) := (WithEntry(codec, archive), EntryRef(codec, archive));
      && (Among(image.manifests, |image.manifests|, d) ==> exists t :: LeadsOn(codec, files, entry, (d, t)))
      && (TypesAgree(codec, image.manifests) ==>
            (Among(image.manifests, |image.manifests|, d) <==> exists t :: LeadsOn(codec, files, entry, (d, t))))
  {
    hide Prepared, TypesAgree, IsTrail, Entry, InFiles, ReadAlike, Starts;
    var files, entry := WithEntry(codec, archive), EntryRef(codec, archive);
    ImageInFiles(codec, archive, image);
    if Among(image.manifests, |image.manifests|, d) {
      var i :| 0 <= i < |image.manifests| && image.manifests[i].digest == d;
      var t := OutputIsLedTo(codec, archive.files, files, image, entry, i);
    }
    if TypesAgree(codec, image.manifests) {
      if t :| LeadsOn(codec, files, entry, (d, t)) {
        var trail :| IsTrail(codec, files, trail, entry, (d, t));
        var i := LedToIsOutput(codec, archive.files, files, image, entry, trail, (d, t));
      }
    }
  }

  /** A descriptor of the image types a manifest of it as another kind than the walk took it for. */
  ghost predicate IsMisreading(codec: Codec, ms: seq<ManifestObject>, r: Ref) {
    exists i, j, k :: 0 <= i < |ms| && 0 <= j < |ms| && 0 <= k < |Items(codec, ms[i])|
      && IsRef(Items(codec, ms[i])[k], r) && ms[j].digest == r.0 && !ReadAlike(codec, ms[j], r.1)
  }

  /** Whatever such a reading leads to is in the image all the same. */
  ghost predicate MisreadingsStayInside(codec: Codec, files: Layout, ms: seq<ManifestObject>) {
    forall r, b :: IsMisreading(codec, ms, r) && LeadsOn(codec, files, r, b) ==> Among(ms, |ms|, b.0)
  }

  lemma NoStep(codec: Codec, files: Layout, a: Ref)
    ensures LeadsOn(codec, files, a, a)
  {
    hide Leads;
    assert IsTrail(codec, files, [a], a, a);
  }

  lemma {:induction false} TrailsJoin(codec: Codec, files: Layout, a: Ref, b: Ref, c: Ref, trail: seq<Ref>)
    requires LeadsOn(codec, files, a, b) && IsTrail(codec, files, trail, b, c)
    ensures LeadsOn(codec, files, a, c)
    decreases |trail|
  {
    hide Leads;
    if |trail| > 1 {
      var front := trail[..|trail| - 1];
      var last := front[|front| - 1];
      assert Leads(codec, files, trail[|front| - 1], trail[|front|]);
      TrailsJoin(codec, files, a, b, last, front);
      OneRefFurther(codec, files, a, last, c);
    }
  }

  /** What is led to is a manifest read as the walk read it, or lies behind a misreading. */
  lemma {:induction false} AlikeOrBehind(codec: Codec, layout: Layout, files: Layout, image: PreparedImage, entry: Ref,
                                         trail: seq<Ref>, b: Ref)
    requires Prepared(codec, layout, image) && InFiles(files, image) && entry.0 == image.root
    requires ReadAlike(codec, image.manifests[|image.manifests| - 1], entry.1)
    requires IsTrail(codec, files, trail, entry, b)
    ensures (exists i :: 0 <= i < |image.manifests| && IsAlike(codec, image.manifests[i], b))
            || (exists r :: IsMisreading(codec, image.manifests, r) && LeadsOn(codec, files, r, b))
    decreases |trail|
  {
    hide Leads, ReadAlike, Prepared, IsMisreading, LeadsOn, InFiles;
    var ms := image.manifests;
    if |trail| == 1 {
      RootIsAlike(codec, layout, image, entry);
    } else {
      var front := trail[..|trail| - 1];
      var a := front[|front| - 1];
      assert Leads(codec, files, trail[|front| - 1], trail[|front|]);
      AlikeOrBehind(codec, layout, files, image, entry, front, a);
      if j :| 0 <= j < |ms| && IsAlike(codec, ms[j], a) {
        StepFromAlike(codec, layout, files, image, j, a, b);
      } else {
        var r :| IsMisreading(codec, ms, r) && LeadsOn(codec, files, r, a);
        OneRefFurther(codec, files, r, a, b);
      }
    }
  }

  ghost predicate IsAlike(codec: Codec, m: ManifestObject, r: Ref) {
    m.digest == r.0 && ReadAlike(codec, m, r.1)
  }

  lemma RootIsAlike(codec: Codec, layout: Layout, image: PreparedImage, entry: Ref)
    requires Prepared(codec, layout, image) && entry.0 == image.root
    requires ReadAlike(codec, image.manifests[|image.manifests| - 1], entry.1)
    ensures |image.manifests| > 0 && IsAlike(codec, image.manifests[|image.manifests| - 1], entry)
  {
    hide ReadAlike;
  }

  lemma StepFromAlike(codec: Codec, layout: Layout, files: Layout, image: PreparedImage, j: nat, a: Ref, b: Ref)
    requires Prepared(codec, layout, image) && InFiles(files, image) && j < |image.manifests|
    requires IsAlike(codec, image.manifests[j], a) && Leads(codec, files, a, b)
    ensures (exists i :: 0 <= i < |image.manifests| && IsAlike(codec, image.manifests[i], b))
            || (exists r :: IsMisreading(codec, image.manifests, r) && LeadsOn(codec, files, r, b))
  {
    hide Leads, ReadAlike, Items, Sendable, BlobFrom, NeedsBlob, Found, IsFile;
    var ms := image.manifests;
    assert Sendable(codec, ms[j]);
    LeadsToItems(codec, files, ms[j], a.1, b);
    var k :| 0 <= k < |Items(codec, ms[j])| && IsRef(Items(codec, ms[j])[k], b);
    assert Items(codec, ms[j])[k] in Items(codec, ms[j]) && Among(ms, j, b.0);
    var i :| 0 <= i < j && ms[i].digest == b.0;
    if ReadAlike(codec, ms[i], b.1) {
      assert IsAlike(codec, ms[i], b);
    } else {
      assert IsMisreading(codec, ms, b);
      NoStep(codec, files, b);
    }
  }

  /** Misreadings are themselves led to. */
  lemma MisreadingIsLedTo(codec: Codec, layout: Layout, files: Layout, image: PreparedImage, entry: Ref, r: Ref)
    requires Prepared(codec, layout, image) && InFiles(files, image) && entry.0 == image.root
    requires ReadAlike(codec, image.manifests[|image.manifests| - 1], entry.1)
    requires IsMisreading(codec, image.manifests, r)
    ensures LeadsOn(codec, files, entry, r)
  {
    hide Leads, ReadAlike, Items, Sendable, BlobFrom, NeedsBlob, Found, IsFile, LeadsOn, IsRef;
    var ms := image.manifests;
    var i, j, k :| 0 <= i < |ms| && 0 <= j < |ms| && 0 <= k < |Items(codec, ms[i])|
      && IsRef(Items(codec, ms[i])[k], r) && ms[j].digest == r.0 && !ReadAlike(codec, ms[j], r.1);
    var t := OutputIsLedTo(codec, layout, files, image, entry, i);
    assert Sendable(codec, ms[i]);
    LeadsToItems(codec, files, ms[i], t, r);
    OneRefFurther(codec, files, entry, (ms[i].digest, t), r);
  }

  /**
   The exact condition: the image holds all that the entry document leads to, under whatever types,
   if and only if nothing behind a misreading lies outside of it.
   */
  lemma HoldsAllIffInside(codec: Codec, archive: Archive, image: PreparedImage)
    requires Prepared(codec, archive.files, image)
    requires Entry(codec, archive).Some? && Starts(codec, image, Entry(codec, archive).value)
    ensures var (files, entry) := (WithEntry(codec, archive), EntryRef(codec, archive));
      (forall b :: LeadsOn(codec, files, entry, b) ==> Among(image.manifests, |image.manifests|, b.0))
      <==> MisreadingsStayInside(codec, files, image.manifests)
  {
    hide Prepared, Entry, InFiles, ReadAlike, Starts, IsTrail, IsMisreading, Among;
    var ms := image.manifests;
    var files, entry := WithEntry(codec, archive), EntryRef(codec, archive);
    ImageInFiles(codec, archive, image);
    if MisreadingsStayInside(codec, files, ms) {
      forall b | LeadsOn(codec, files, entry, b)
        ensures Among(ms, |ms|, b.0)
      {
        var trail :| IsTrail(codec, files, trail, entry, b);
        AlikeOrBehind(codec, archive.files, files, image, entry, trail, b);
        AlikeIsAmong(codec, ms, b);
      }
    }
    if forall b :: LeadsOn(codec, files, entry, b) ==> Among(ms, |ms|, b.0) {
      forall r, b | IsMisreading(codec, ms, r) && LeadsOn(codec, files, r, b)
        ensures Among(ms, |ms|, b.0)
      {
        MisreadingIsLedTo(codec, archive.files, files, image, entry, r);
        var trail :| IsTrail(codec, files, trail, r, b);
        TrailsJoin(codec, files, entry, r, b, trail);
      }
    }
  }

  lemma AlikeIsAmong(codec: Codec, ms: seq<ManifestObject>, b: Ref)
    ensures (exists i :: 0 <= i < |ms| && IsAlike(codec, ms[i], b)) ==> Among(ms, |ms|, b.0)
  {
    hide ReadAlike;
  }

  // ---------------------------------------------------------------- soundness

  /**
   Every descriptor that types a manifest of the image as another kind than the walk took it for is
   sound as it stands: this is what the walk did not look at.
   */
  ghost predicate OtherReadingsSound(codec: Codec, layout: Layout, rank: Digest -> nat, ms: seq<ManifestObject>)
    requires Acyclic(codec, layout, rank)
  {
    forall i, j, item :: 0 <= i < |ms| && 0 <= j < |ms| && item in Items(codec, ms[i])
                         && item.relationship.Manifest? && item.descriptor.digest == ms[j].digest
                         && !ReadAlike(codec, ms[j], item.descriptor.mediaType) ==>
      SoundItem(codec, layout, rank, item, rank(item.descriptor.digest) + 1)
  }

  lemma AnyBound(codec: Codec, layout: Layout, rank: Digest -> nat, item: Item, a: nat, b: nat)
    requires Acyclic(codec, layout, rank)
    requires item.relationship.Manifest? ==> rank(item.descriptor.digest) < a && rank(item.descriptor.digest) < b
    ensures SoundItem(codec, layout, rank, item, a) <==> SoundItem(codec, layout, rank, item, b)
  {
    hide Acyclic, Sound;
  }

  /** Every manifest of the image is a file that ranks below what refers to it. */
  lemma OutputDescends(codec: Codec, layout: Layout, rank: Digest -> nat, image: PreparedImage, i: nat)
    requires Prepared(codec, layout, image) && Acyclic(codec, layout, rank) && i < |image.manifests|
    requires i == |image.manifests| - 1 ==> Descends(codec, rank, image.manifests[i].bytes)
    ensures Descends(codec, rank, image.manifests[i].bytes)
            && codec.hash(image.manifests[i].bytes) == image.manifests[i].digest
    ensures i < |image.manifests| - 1 ==>
              var m := image.manifests[i]; m.digest in layout && layout[m.digest] == m.bytes
  {
    hide Manifests.Parse, Items, BlobFrom, NeedsBlob, Descends;
    assert Sendable(codec, image.manifests[i]);
    if i < |image.manifests| - 1 {
      FileOf(codec, layout, image, i);
    }
  }

  lemma {:induction false} SoundIfOthersAre(codec: Codec, layout: Layout, rank: Digest -> nat, image: PreparedImage,
                                            i: nat, mediaType: string)
    requires Prepared(codec, layout, image) && Acyclic(codec, layout, rank) && i < |image.manifests|
    requires Descends(codec, rank, image.manifests[i].bytes)
    requires OtherReadingsSound(codec, layout, rank, image.manifests)
    requires ReadAlike(codec, image.manifests[i], mediaType)
    ensures Sound(codec, layout, rank, image.manifests[i].bytes, Some(mediaType))
    decreases i
  {
    var m := image.manifests[i];
    var ms := image.manifests;
    hide Manifests.Parse, Sound, Acyclic, Descends, ReadAlike;
    OutputDescends(codec, layout, rank, image, i);
    assert Sendable(codec, m);
    AlikeItems(codec, m, mediaType);
    SoundParts(codec, layout, rank, m.bytes, Some(mediaType));
    var items := Items(codec, m);
    forall k | 0 <= k < |items|
      ensures SoundItem(codec, layout, rank, items[k], rank(m.digest))
    {
      var d := items[k].descriptor;
      assert items[k] in Items(codec, ms[i]);
      if items[k].relationship.Manifest? {
        assert Among(ms, i, d.digest) && IsManifestFile(codec, layout, d);
        var j :| 0 <= j < i && ms[j].digest == d.digest;
        OutputDescends(codec, layout, rank, image, j);
        if ReadAlike(codec, ms[j], d.mediaType) {
          SoundIfOthersAre(codec, layout, rank, image, j, d.mediaType);
        } else {
          AnyBound(codec, layout, rank, items[k], rank(d.digest) + 1, rank(m.digest));
        }
      }
    }
  }

  lemma SoundByParse(codec: Codec, layout: Layout, rank: Digest -> nat, bytes: Bytes, a: Option<string>,
                     b: Option<string>)
    requires Acyclic(codec, layout, rank) && Descends(codec, rank, bytes)
    requires Manifests.Parse(codec, bytes, a) == Manifests.Parse(codec, bytes, b)
    ensures Sound(codec, layout, rank, bytes, a) <==> Sound(codec, layout, rank, bytes, b)
  {
    hide Manifests.Parse, Sound, Acyclic, Descends;
    SoundParts(codec, layout, rank, bytes, a);
    SoundParts(codec, layout, rank, bytes, b);
  }

  /** Under a sound root every manifest of the image is sound, as the walk read it. */
  lemma {:induction false} OutputsAreSound(codec: Codec, layout: Layout, rank: Digest -> nat, image: PreparedImage,
                                           i: nat)
    requires Prepared(codec, layout, image) && Acyclic(codec, layout, rank) && i < |image.manifests|
    requires var root := image.manifests[|image.manifests| - 1];
             Descends(codec, rank, root.bytes) && Sound(codec, layout, rank, root.bytes, Some(root.mediaType))
    ensures Descends(codec, rank, image.manifests[i].bytes)
    ensures Sound(codec, layout, rank, image.manifests[i].bytes, Some(image.manifests[i].mediaType))
    decreases |image.manifests| - i
  {
    hide Manifests.Parse, Sound, Acyclic, Descends, Items, Prepared;
    OutputDescends(codec, layout, rank, image, i);
    var ms := image.manifests;
    if i < |ms| - 1 {
      var j, k := FoundFrom(codec, layout, image, i);
      OutputsAreSound(codec, layout, rank, image, j);
      ItemsAreSound(codec, layout, rank, ms[j]);
      var item := Items(codec, ms[j])[k];
      SoundByParse(codec, layout, rank, ms[i].bytes, Some(item.descriptor.mediaType), Some(ms[i].mediaType));
    }
  }

  /** The later manifest, and its descriptor, from which manifest `i` was entered. */
  lemma FoundFrom(codec: Codec, layout: Layout, image: PreparedImage, i: nat) returns (j: nat, k: nat)
    requires Prepared(codec, layout, image) && i < |image.manifests| - 1
    ensures i < j < |image.manifests| && k < |Items(codec, image.manifests[j])|
    ensures var m := image.manifests[i];
            var item := Items(codec, image.manifests[j])[k];
      && item.relationship.Manifest? && item.descriptor.digest == m.digest && m.digest in layout
      && layout[m.digest] == m.bytes
      && Manifests.Parse(codec, m.bytes, Some(item.descriptor.mediaType))
         == Manifests.Parse(codec, m.bytes, Some(m.mediaType))
  {
    hide Manifests.Parse, Items, BlobFrom, NeedsBlob, PostOrder;
    var ms := image.manifests;
    assert Found(codec, layout, ms, i);
    j :| i < j < |ms| && Names(codec, layout, Items(codec, ms[j]), ms[i]);
    k :| 0 <= k < |Items(codec, ms[j])| && NamedBy(codec, layout, Items(codec, ms[j])[k], ms[i]);
  }

  lemma ItemsAreSound(codec: Codec, layout: Layout, rank: Digest -> nat, m: ManifestObject)
    requires Acyclic(codec, layout, rank) && Descends(codec, rank, m.bytes)
    requires Sound(codec, layout, rank, m.bytes, Some(m.mediaType))
    ensures forall k :: 0 <= k < |Items(codec, m)| ==>
              var item := Items(codec, m)[k];
              && (item.relationship.Manifest? ==> rank(item.descriptor.digest) < rank(codec.hash(m.bytes)))
              && SoundItem(codec, layout, rank, item, rank(codec.hash(m.bytes)))
  {
    hide Manifests.Parse, Sound, SoundItem, Acyclic, Descends;
    SoundParts(codec, layout, rank, m.bytes, Some(m.mediaType));
  }

  /**
   The exact condition. A walk that succeeded has verified everything under its root if and only if
   every other reading of a manifest it entered, that some descriptor of the image calls for, is
   sound.
   */
  lemma SoundIffOthersAre(codec: Codec, layout: Layout, rank: Digest -> nat, image: PreparedImage)
    requires Prepared(codec, layout, image) && Acyclic(codec, layout, rank)
    requires Descends(codec, rank, image.manifests[|image.manifests| - 1].bytes)
    ensures var root := image.manifests[|image.manifests| - 1];
            Sound(codec, layout, rank, root.bytes, Some(root.mediaType))
            <==> OtherReadingsSound(codec, layout, rank, image.manifests)
  {
    hide Manifests.Parse, Sound, Acyclic, Descends, Prepared, Items, SoundItem, OtherReadingsSound;
    RootExists(codec, layout, image);
    var root := image.manifests[|image.manifests| - 1];
    if OtherReadingsSound(codec, layout, rank, image.manifests) {
      SoundIfOthersAre(codec, layout, rank, image, |image.manifests| - 1, root.mediaType);
    }
    if Sound(codec, layout, rank, root.bytes, Some(root.mediaType)) {
      OthersAreSound(codec, layout, rank, image);
    }
  }

  lemma RootExists(codec: Codec, layout: Layout, image: PreparedImage)
    requires Prepared(codec, layout, image)
    ensures image.manifests != []
  {
  }

  lemma OthersAreSound(codec: Codec, layout: Layout, rank: Digest -> nat, image: PreparedImage)
    requires Prepared(codec, layout, image) && Acyclic(codec, layout, rank)
    requires image.manifests != []
    requires var root := image.manifests[|image.manifests| - 1];
             Descends(codec, rank, root.bytes) && Sound(codec, layout, rank, root.bytes, Some(root.mediaType))
    ensures OtherReadingsSound(codec, layout, rank, image.manifests)
  {
    hide Manifests.Parse, Sound, Acyclic, Descends, Prepared, Items, SoundItem, ReadAlike;
    var ms := image.manifests;
    forall i, item | 0 <= i < |ms| && item in Items(codec, ms[i]) && item.relationship.Manifest?
      ensures SoundItem(codec, layout, rank, item, rank(item.descriptor.digest) + 1)
    {
      OutputsAreSound(codec, layout, rank, image, i);
      ItemsAreSound(codec, layout, rank, ms[i]);
      AnyBound(codec, layout, rank, item, rank(codec.hash(ms[i].bytes)), rank(item.descriptor.digest) + 1);
    }
  }

  /** The same for the client's walk over an archive, from its entry document. */
  lemma WalkIsSoundIff(codec: Codec, archive: Archive, rank: Digest -> nat, image: PreparedImage)
    requires Prepared(codec, archive.files, image) && Acyclic(codec, archive.files, rank)
    requires Entry(codec, archive).Some? && Starts(codec, image, Entry(codec, archive).value)
    requires Descends(codec, rank, Entry(codec, archive).value.0)
    ensures var (bytes, mediaType) := Entry(codec, archive).value;
            Sound(codec, archive.files, rank, bytes, Some(mediaType))
            <==> OtherReadingsSound(codec, archive.files, rank, image.manifests)
  {
    hide Entry, Manifests.Parse, Sound, Acyclic, Descends, Prepared, OtherReadingsSound;
    var (bytes, mediaType) := Entry(codec, archive).value;
    var root := image.manifests[|image.manifests| - 1];
    SoundIffOthersAre(codec, archive.files, rank, image);
    SoundByParse(codec, archive.files, rank, bytes, Some(mediaType), Some(root.mediaType));
  }

  /** In particular, if every descriptor agrees with the walk on the kind. */
  lemma PreparedIsSound(codec: Codec, layout: Layout, rank: Digest -> nat, image: PreparedImage, i: nat,
                        mediaType: string)
    requires Prepared(codec, layout, image) && i < |image.manifests|
    requires TypesAgree(codec, image.manifests) && ReadAlike(codec, image.manifests[i], mediaType)
    requires Acyclic(codec, layout, rank) && Descends(codec, rank, image.manifests[i].bytes)
    ensures Sound(codec, layout, rank, image.manifests[i].bytes, Some(mediaType))
  {
    hide Manifests.Parse, Sound, Acyclic, Descends, Prepared, Items, ReadAlike;
    SoundIfOthersAre(codec, layout, rank, image, i, mediaType);
  }
}
