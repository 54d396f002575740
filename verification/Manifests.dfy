/**
 Reading an OCI or Docker manifest: which kind it is, and the list of descriptors with their
 relationships and positions. The hash, the JSON reader and the decoding of one descriptor
 object are given from outside.
 */
module Manifests {
  import opened Common
  import opened Digests
  import opened Text

  datatype Json =
    | Null
    | Bool(flag: bool)
    | Integer(value: int)
    | Float(literal: string)
    | Str(text: string)
    | Array(items: seq<Json>)
    | Object(fields: map<string, Json>)

  datatype Descriptor = Descriptor(
    mediaType: string,
    digest: Digest,
    size: int,
    artifactType: Option<string>,
    annotations: Option<Json>,
    platform: Option<Json>)

  datatype Codec = Codec(
    hash: Bytes -> Digest,
    json: Bytes -> Option<Json>,
    descriptor: Json -> Option<Descriptor>)

  datatype Relationship = Config | Layer | Manifest | Subject

  datatype Kind = ImageManifest | ImageIndex

  datatype Item = Item(relationship: Relationship, position: nat, descriptor: Descriptor)

  /** Config and layers are blobs; the others name manifests. */
  predicate NeedsBlob(item: Item) {
    item.relationship.Config? || item.relationship.Layer?
  }

  datatype Document = Document(
    raw: Bytes,
    digest: Digest,
    mediaType: string,
    kind: Kind,
    artifactType: Option<string>,
    subject: Option<Descriptor>,
    items: seq<Item>)

  datatype ManifestError = InvalidJson | UnsupportedSchema | MissingMediaType | UnsupportedMediaType(name: string)

  const OCI_IMAGE_MANIFEST := "application/vnd.oci.image.manifest.v1+json"
  const OCI_IMAGE_INDEX := "application/vnd.oci.image.index.v1+json"
  const DOCKER_IMAGE_MANIFEST := "application/vnd.docker.distribution.manifest.v2+json"
  const DOCKER_MANIFEST_LIST := "application/vnd.docker.distribution.manifest.list.v2+json"

  function Get(value: Json, name: string): Option<Json> {
    if value.Object? && name in value.fields then Some(value.fields[name]) else None
  }

  function GetText(value: Json, name: string): Option<string> {
    match Get(value, name)
    case Some(Str(text)) => Some(text)
    case _ => None
  }

  function GetArray(value: Json, name: string): seq<Json> {
    match Get(value, name)
    case Some(Array(items)) => items
    case _ => []
  }

  /** The type in the body wins; the Content-Type counts without its parameters. */
  function MediaType(value: Json, supplied: Option<string>): Option<string> {
    match GetText(value, "mediaType")
    case Some(text) => Some(Trim(text))
    case None =>
      match supplied
      case Some(text) => Some(Trim(Split(text, ';')[0]))
      case None => None
  }

  function KindOf(value: Json, mediaType: string): Option<Kind> {
    if mediaType in {OCI_IMAGE_MANIFEST, DOCKER_IMAGE_MANIFEST} then Some(ImageManifest)
    else if mediaType in {OCI_IMAGE_INDEX, DOCKER_MANIFEST_LIST} then Some(ImageIndex)
    else if Get(value, "config").Some? || Get(value, "layers").Some? then Some(ImageManifest)
    else if Get(value, "manifests").Some? then Some(ImageIndex)
    else None
  }

  /** Every value is a descriptor; they get positions 0, 1, 2 and so on. */
  function DecodeAll(codec: Codec, relationship: Relationship, values: seq<Json>): (r: Option<seq<Item>>)
    ensures r.Some? ==> |r.value| == |values|
    ensures r.Some? ==> forall i :: 0 <= i < |values| ==>
              r.value[i].relationship == relationship && r.value[i].position == i
              && codec.descriptor(values[i]) == Some(r.value[i].descriptor)
    ensures r.None? ==> exists i :: 0 <= i < |values| && codec.descriptor(values[i]).None?
  {
    if values == [] then Some([])
    else
      var n := |values| - 1;
      match DecodeAll(codec, relationship, values[..n])
      case None => None
      case Some(front) =>
        match codec.descriptor(values[n])
        case None => None
        case Some(d) => Some(front + [Item(relationship, n, d)])
  }

  /** The list of children: config and layers of an image, manifests of an index. */
  function Children(codec: Codec, value: Json, kind: Kind): Option<seq<Item>> {
    match kind
    case ImageIndex => DecodeAll(codec, Manifest, GetArray(value, "manifests"))
    case ImageManifest =>
      var config := Get(value, "config");
      match DecodeAll(codec, Config, if config.Some? then [config.value] else [])
      case None => None
      case Some(head) =>
        match DecodeAll(codec, Layer, GetArray(value, "layers"))
        case None => None
        case Some(layers) => Some(head + layers)
  }

  function SubjectOf(codec: Codec, value: Json): Result<Option<Descriptor>, ManifestError> {
    match Get(value, "subject")
    case None => Ok(None)
    case Some(subject) =>
      match codec.descriptor(subject)
      case None => Err(InvalidJson)
      case Some(d) => Ok(Some(d))
  }

  /** `ManifestDocument::parse`. */
  function Parse(codec: Codec, raw: Bytes, supplied: Option<string>): Result<Document, ManifestError> {
    match codec.json(raw)
    case None => Err(InvalidJson)
    case Some(value) => Read(codec, raw, value, MediaType(value, supplied))
  }

  function Read(codec: Codec, raw: Bytes, value: Json, mediaType: Option<string>): (r: Result<Document, ManifestError>)
    ensures r.Ok? ==> r.value.raw == raw && r.value.digest == codec.hash(raw) && mediaType == Some(r.value.mediaType)
  {
    if Get(value, "schemaVersion") != Some(Integer(2)) then Err(UnsupportedSchema)
    else if mediaType.None? then Err(MissingMediaType)
    else
      var kind := KindOf(value, mediaType.value);
      if kind.None? then Err(UnsupportedMediaType(mediaType.value))
      else
        match SubjectOf(codec, value)
        case Err(error) => Err(error)
        case Ok(subject) =>
          match Children(codec, value, kind.value)
          case None => Err(InvalidJson)
          case Some(children) =>
            Ok(Document(raw, codec.hash(raw), mediaType.value, kind.value, GetText(value, "artifactType"), subject,
                        if subject.None? then children else children + [Item(Subject, 0, subject.value)]))
  }

  /** The whole descriptor list of a body, read as a manifest of this kind. */
  function ItemsOf(codec: Codec, value: Json, kind: Kind): Option<seq<Item>> {
    match SubjectOf(codec, value)
    case Err(_) => None
    case Ok(subject) =>
      match Children(codec, value, kind)
      case None => None
      case Some(children) => Some(if subject.None? then children else children + [Item(Subject, 0, subject.value)])
  }

  /** Two readings of one body differ in nothing that matters but their kind. */
  lemma ParsedByKind(codec: Codec, raw: Bytes, supplied: Option<string>)
    requires Parse(codec, raw, supplied).Ok?
    ensures codec.json(raw).Some?
    ensures var doc := Parse(codec, raw, supplied).value;
            var value := codec.json(raw).value;
      && MediaType(value, supplied).Some? && KindOf(value, MediaType(value, supplied).value) == Some(doc.kind)
      && ItemsOf(codec, value, doc.kind) == Some(doc.items)
  {
    hide MediaType, KindOf, SubjectOf, Children;
  }

  /** Two documents read from one body are the same list of descriptors if they are of one kind. */
  lemma SameKindSameItems(codec: Codec, raw: Bytes, a: Option<string>, b: Option<string>)
    requires Parse(codec, raw, a).Ok? && Parse(codec, raw, b).Ok?
    ensures var (x, y) := (Parse(codec, raw, a).value, Parse(codec, raw, b).value);
            x.kind == y.kind ==> x.items == y.items
  {
    hide Parse;
    ParsedByKind(codec, raw, a);
    ParsedByKind(codec, raw, b);
  }

  /** One of the loops of `ManifestDocument::parse`: push a descriptor for every value. */
  method PushAll(codec: Codec, relationship: Relationship, values: seq<Json>, before: seq<Item>)
      returns (r: Option<seq<Item>>)
    ensures var all := DecodeAll(codec, relationship, values);
            r == if all.None? then None else Some(before + all.value)
  {
    var items := before;
    for i := 0 to |values|
      invariant DecodeAll(codec, relationship, values[..i]).Some?
      invariant items == before + DecodeAll(codec, relationship, values[..i]).value
    {
      assert values[..i + 1][..i] == values[..i];
      var d := codec.descriptor(values[i]);
      if d.None? {
        DecodeAllFails(codec, relationship, values, i);
        return None;
      }
      items := items + [Item(relationship, i, d.value)];
    }
    assert values[..|values|] == values;
    return Some(items);
  }

  /** `ManifestDocument::parse` as the program runs it: one list, filled in loops. */
  method ParseDocument(codec: Codec, raw: Bytes, supplied: Option<string>) returns (r: Result<Document, ManifestError>)
    ensures r == Parse(codec, raw, supplied)
  {
    hide DecodeAll;
    var json := codec.json(raw);
    if json.None? { return Err(InvalidJson); }
    var value := json.value;
    if Get(value, "schemaVersion") != Some(Integer(2)) { return Err(UnsupportedSchema); }
    var mediaType := MediaType(value, supplied);
    if mediaType.None? { return Err(MissingMediaType); }
    var kind := KindOf(value, mediaType.value);
    if kind.None? { return Err(UnsupportedMediaType(mediaType.value)); }
    var subject := SubjectOf(codec, value);
    if subject.Err? { return Err(subject.error); }
    hide MediaType, KindOf, SubjectOf;

    var items: Option<seq<Item>>;
    if kind.value.ImageManifest? {
      var config := Get(value, "config");
      items := PushAll(codec, Config, if config.Some? then [config.value] else [], []);
      if items.None? { return Err(InvalidJson); }
      items := PushAll(codec, Layer, GetArray(value, "layers"), items.value);
    } else {
      items := PushAll(codec, Manifest, GetArray(value, "manifests"), []);
    }
    if items.None? { return Err(InvalidJson); }
    assert forall list: seq<Item> :: [] + list == list;
    var all := items.value;
    if subject.value.Some? {
      all := all + [Item(Subject, 0, subject.value.value)];
    }
    return Ok(Document(raw, codec.hash(raw), mediaType.value, kind.value, GetText(value, "artifactType"),
        subject.value, all));
  }

  lemma DecodeAllFails(codec: Codec, relationship: Relationship, values: seq<Json>, i: nat)
    requires i < |values| && codec.descriptor(values[i]).None?
    ensures DecodeAll(codec, relationship, values).None?
  {
  }

  // ---------------------------------------------------------------- properties

  /** The body names its own type, so no Content-Type can change how it is read. */
  predicate SelfDescribing(codec: Codec, raw: Bytes) {
    codec.json(raw).Some? && GetText(codec.json(raw).value, "mediaType").Some?
  }

  lemma SelfDescribingReadsOneWay(codec: Codec, raw: Bytes, a: Option<string>, b: Option<string>)
    requires SelfDescribing(codec, raw)
    ensures Parse(codec, raw, a) == Parse(codec, raw, b)
  {
  }

  /** Sending a document on under the type it was read with gives the same document. */
  lemma ReparseIsStable(codec: Codec, raw: Bytes, supplied: Option<string>)
    requires Parse(codec, raw, supplied).Ok?
    ensures var doc := Parse(codec, raw, supplied).value;
            Parse(codec, raw, Some(doc.mediaType)) == Ok(doc)
  {
    MediaTypeIsStable(codec.json(raw).value, supplied);
    hide Read, MediaType;
  }

  lemma MediaTypeIsStable(value: Json, supplied: Option<string>)
    requires MediaType(value, supplied).Some?
    ensures MediaType(value, MediaType(value, supplied)) == MediaType(value, supplied)
  {
    hide Trim, Split;
    if GetText(value, "mediaType").None? {
      var first := Split(supplied.value, ';')[0];
      TrimTwice(first);
      assert ';' !in Trim(first);
      SplitNothing(Trim(first), ';');
    }
  }

  /** A document keeps the bytes it was read from, and is named by their hash. */
  lemma ParsedDigest(codec: Codec, raw: Bytes, supplied: Option<string>)
    requires Parse(codec, raw, supplied).Ok?
    ensures var doc := Parse(codec, raw, supplied).value; doc.raw == raw && doc.digest == codec.hash(raw)
  {
  }

  /**
   Where the body names no type, a Content-Type is read as its type alone: white space around it
   and parameters after it do not count.
   */
  lemma ContentTypeIsRead(value: Json, before: string, name: string, after: string, parameters: string)
    requires GetText(value, "mediaType").None?
    requires Blank(before) && Blank(after) && Trimmed(name) && ';' !in name
    requires parameters == "" || parameters[0] == ';'
    ensures MediaType(value, Some(before + name + after + parameters)) == Some(name)
    ensures MediaType(value, None) == None
  {
    var kept := before + name + after;
    TrimIs(before, name, after);
    assert ';' !in kept;
    if parameters == "" {
      assert kept + parameters == kept;
      SplitNothing(kept, ';');
    } else {
      assert kept + parameters == kept + [';'] + parameters[1..];
      SplitOnceIs(kept, ';', parameters[1..]);
    }
    hide SplitOnce, Trim;
  }

  /** The type the body names wins over any Content-Type; it is trimmed, and otherwise taken whole. */
  lemma NamedTypeIsRead(value: Json, before: string, name: string, after: string, supplied: Option<string>)
    requires GetText(value, "mediaType") == Some(before + name + after)
    requires Blank(before) && Blank(after) && Trimmed(name)
    ensures MediaType(value, supplied) == Some(name)
  {
    TrimIs(before, name, after);
  }

  /** What a document says besides its descriptors is what its body says; only schema version 2 parses. */
  lemma ParsedFields(codec: Codec, raw: Bytes, supplied: Option<string>)
    requires Parse(codec, raw, supplied).Ok?
    ensures var (doc, value) := (Parse(codec, raw, supplied).value, codec.json(raw).value);
      && Get(value, "schemaVersion") == Some(Integer(2))
      && MediaType(value, supplied) == Some(doc.mediaType)
      && doc.artifactType == GetText(value, "artifactType")
      && (doc.subject.Some? <==> Get(value, "subject").Some?)
      && (doc.subject.Some? ==> codec.descriptor(Get(value, "subject").value) == doc.subject)
  {
    hide MediaType, KindOf, Children;
  }

  const KNOWN_TYPES := {OCI_IMAGE_MANIFEST, DOCKER_IMAGE_MANIFEST, OCI_IMAGE_INDEX, DOCKER_MANIFEST_LIST}

  /**
   A known media type decides the kind whatever the body holds: the two manifest types give an
   image, the index and the list type an index. An unknown one leaves it to the body, and config or
   layers count before manifests.
   */
  lemma KindIsDecided(value: Json, mediaType: string)
    ensures mediaType in KNOWN_TYPES ==>
              var isImage := mediaType in {OCI_IMAGE_MANIFEST, DOCKER_IMAGE_MANIFEST};
              KindOf(value, mediaType) == Some(if isImage then ImageManifest else ImageIndex)
    ensures mediaType !in KNOWN_TYPES ==>
              (KindOf(value, mediaType) == Some(ImageManifest) <==>
               Get(value, "config").Some? || Get(value, "layers").Some?)
    ensures mediaType !in KNOWN_TYPES && KindOf(value, mediaType) == Some(ImageIndex) ==>
              Get(value, "config").None? && GetArray(value, "layers") == [] && Get(value, "manifests").Some?
  {
  }

  /** `item` is what the reader makes of `value`, in this place. */
  ghost predicate Decodes(codec: Codec, item: Item, relationship: Relationship, position: nat, value: Json) {
    item.relationship == relationship && item.position == position && codec.descriptor(value) == Some(item.descriptor)
  }

  /**
   The descriptor list is the body's own: config first, layers in order, or the manifests in
   order; the subject last; and nothing else.
   */
  lemma ParsedItems(codec: Codec, raw: Bytes, supplied: Option<string>)
    requires Parse(codec, raw, supplied).Ok?
    ensures var items := Parse(codec, raw, supplied).value.items;
            var value := codec.json(raw).value;
            var (config, layers) := (Get(value, "config"), GetArray(value, "layers"));
            var (manifests, subject) := (GetArray(value, "manifests"), Get(value, "subject"));
            var s := if subject.Some? then 1 else 0;
      && (subject.Some? ==> items != [] && Decodes(codec, items[|items| - 1], Subject, 0, subject.value))
      && if Parse(codec, raw, supplied).value.kind.ImageManifest? then
           var c := if config.Some? then 1 else 0;
           && |items| == c + |layers| + s
           && (config.Some? ==> Decodes(codec, items[0], Config, 0, config.value))
           && forall i :: 0 <= i < |layers| ==> Decodes(codec, items[c + i], Layer, i, layers[i])
         else
           && |items| == |manifests| + s
           && forall i :: 0 <= i < |manifests| ==> Decodes(codec, items[i], Manifest, i, manifests[i])
  {
    hide MediaType, KindOf, Children, ItemsOf, Parse;
    ParsedByKind(codec, raw, supplied);
    var value := codec.json(raw).value;
    if Parse(codec, raw, supplied).value.kind.ImageManifest? {
      ImageItems(codec, value);
    } else {
      IndexItems(codec, value);
    }
  }

  lemma ImageItems(codec: Codec, value: Json)
    requires ItemsOf(codec, value, ImageManifest).Some?
    ensures var items := ItemsOf(codec, value, ImageManifest).value;
            var (config, layers, subject) := (Get(value, "config"), GetArray(value, "layers"), Get(value, "subject"));
            var (c, s) := (if config.Some? then 1 else 0, if subject.Some? then 1 else 0);
      && |items| == c + |layers| + s
      && (config.Some? ==> Decodes(codec, items[0], Config, 0, config.value))
      && (forall i :: 0 <= i < |layers| ==> Decodes(codec, items[c + i], Layer, i, layers[i]))
      && (subject.Some? ==> Decodes(codec, items[|items| - 1], Subject, 0, subject.value))
  {
    hide Children, ItemsOf, Get, GetArray, Decodes;
    SubjectIsLast(codec, value, ImageManifest);
    ImageChildren(codec, value);
  }

  lemma ImageChildren(codec: Codec, value: Json)
    requires Children(codec, value, ImageManifest).Some?
    ensures var children := Children(codec, value, ImageManifest).value;
            var (config, layers) := (Get(value, "config"), GetArray(value, "layers"));
            var c := if config.Some? then 1 else 0;
      && |children| == c + |layers|
      && (config.Some? ==> Decodes(codec, children[0], Config, 0, config.value))
      && (forall i :: 0 <= i < |layers| ==> Decodes(codec, children[c + i], Layer, i, layers[i]))
  {
    hide DecodeAll, Get, GetArray;
  }

  /** The children come first, and a subject is the last item. */
  lemma SubjectIsLast(codec: Codec, value: Json, kind: Kind)
    requires ItemsOf(codec, value, kind).Some?
    ensures Children(codec, value, kind).Some?
    ensures var (items, children) := (ItemsOf(codec, value, kind).value, Children(codec, value, kind).value);
      && |items| == |children| + (if Get(value, "subject").Some? then 1 else 0)
      && (forall i :: 0 <= i < |children| ==> items[i] == children[i])
      && (Get(value, "subject").Some? ==>
            Decodes(codec, items[|items| - 1], Subject, 0, Get(value, "subject").value))
  {
    hide Children, Get;
  }

  lemma IndexItems(codec: Codec, value: Json)
    requires ItemsOf(codec, value, ImageIndex).Some?
    ensures var items := ItemsOf(codec, value, ImageIndex).value;
            var (manifests, subject) := (GetArray(value, "manifests"), Get(value, "subject"));
      && |items| == |manifests| + (if subject.Some? then 1 else 0)
      && (forall i :: 0 <= i < |manifests| ==> Decodes(codec, items[i], Manifest, i, manifests[i]))
      && (subject.Some? ==> Decodes(codec, items[|items| - 1], Subject, 0, subject.value))
  {
    SubjectIsLast(codec, value, ImageIndex);
    hide ItemsOf, DecodeAll, Get, GetArray;
  }

  /** Within one relationship, positions count up from 0 in list order. */
  ghost predicate GapFree(items: seq<Item>) {
    forall i :: 0 <= i < |items| ==>
      items[i].position == 0
      || (i > 0 && items[i - 1].relationship == items[i].relationship && items[i - 1].position + 1 == items[i].position)
  }

  /** No two descriptors share relationship and position: they are a key for the edges. */
  ghost predicate KeysDistinct(items: seq<Item>) {
    forall i, j :: 0 <= i < j < |items| ==>
      items[i].relationship != items[j].relationship || items[i].position != items[j].position
  }

  /** Items of a relationship not used before, with positions of their own, keep the keys apart. */
  lemma AppendDistinct(before: seq<Item>, after: seq<Item>, relationship: Relationship)
    requires GapFree(before) && KeysDistinct(before)
    requires forall i :: 0 <= i < |before| ==> before[i].relationship != relationship
    requires forall i :: 0 <= i < |after| ==> after[i].relationship == relationship && after[i].position == i
    ensures GapFree(before + after) && KeysDistinct(before + after)
  {
    var all := before + after;
    forall i | 0 <= i < |all|
      ensures all[i].position == 0
              || (i > 0 && all[i - 1].relationship == all[i].relationship && all[i - 1].position + 1 == all[i].position)
    {
      if i < |before| {
        assert all[i] == before[i] && (i > 0 ==> all[i - 1] == before[i - 1]);
        assert before[i].position == 0 || (i > 0 && before[i - 1].position + 1 == before[i].position);
      } else if i == |before| {
        assert all[i] == after[0];
      } else {
        assert all[i] == after[i - |before|] && all[i - 1] == after[i - |before| - 1];
        assert after[i - |before| - 1].position == i - |before| - 1;
      }
    }
  }

  lemma Numbered(items: seq<Item>, relationship: Relationship)
    requires forall i :: 0 <= i < |items| ==> items[i].relationship == relationship && items[i].position == i
    ensures GapFree(items) && KeysDistinct(items)
  {
  }

  lemma ChildrenIdentify(codec: Codec, value: Json, kind: Kind)
    requires Children(codec, value, kind).Some?
    ensures var children := Children(codec, value, kind).value;
      && GapFree(children) && KeysDistinct(children)
      && forall i :: 0 <= i < |children| ==> !children[i].relationship.Subject?
  {
    hide DecodeAll;
    if kind.ImageIndex? {
      Numbered(Children(codec, value, kind).value, Manifest);
    } else {
      var config := Get(value, "config");
      var head := DecodeAll(codec, Config, if config.Some? then [config.value] else []).value;
      Numbered(head, Config);
      hide GapFree, KeysDistinct;
      AppendDistinct(head, DecodeAll(codec, Layer, GetArray(value, "layers")).value, Layer);
    }
  }

  lemma ItemsIdentify(codec: Codec, value: Json, kind: Kind)
    requires ItemsOf(codec, value, kind).Some?
    ensures GapFree(ItemsOf(codec, value, kind).value) && KeysDistinct(ItemsOf(codec, value, kind).value)
  {
    hide SubjectOf, GapFree, KeysDistinct, Children;
    ChildrenIdentify(codec, value, kind);
    var subject := SubjectOf(codec, value).value;
    if subject.Some? {
      AppendDistinct(Children(codec, value, kind).value, [Item(Subject, 0, subject.value)], Subject);
    }
  }

  lemma PositionsIdentify(codec: Codec, raw: Bytes, supplied: Option<string>)
    requires Parse(codec, raw, supplied).Ok?
    ensures GapFree(Parse(codec, raw, supplied).value.items)
    ensures KeysDistinct(Parse(codec, raw, supplied).value.items)
  {
    hide Parse, ItemsOf, GapFree, KeysDistinct;
    ParsedByKind(codec, raw, supplied);
    ItemsIdentify(codec, codec.json(raw).value, Parse(codec, raw, supplied).value.kind);
  }
}
