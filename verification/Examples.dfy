/** Bodies and a reader for the concrete inputs that show why a condition is needed. */
module Examples {
  import opened Common
  import opened Digests
  import opened Manifests

  const LAYER: Digest := RawDigest.Digest(SHA256, seq(64, _ => 'a'))
  const MANIFEST: Digest := RawDigest.Digest(SHA256, seq(64, _ => 'b'))
  const INDEX: Digest := RawDigest.Digest(SHA256, seq(64, _ => 'c'))

  /** What the marker file of an OCI layout holds, and a byte that stands for its text. */
  const LAYOUT_MARKER: Json := Object(map["imageLayoutVersion" := Str("1.0.0")])
  const MARKER: Bytes := [4]

  /** A descriptor as it is written in a body. */
  function DescriptorObject(mediaType: string, digest: Digest, size: int): Json {
    Object(map["mediaType" := Str(mediaType), "digest" := Str(Digests.Print(digest)), "size" := Integer(size)])
  }

  /** Three fields are required and checked; anything that is not such an object is refused. */
  function Decode(value: Json): Option<Descriptor> {
    match GetText(value, "mediaType")
    case None => None
    case Some(mediaType) =>
      match GetText(value, "digest")
      case None => None
      case Some(text) =>
        match Get(value, "size")
        case Some(Integer(size)) =>
          if -MAX_I64 - 1 <= size <= MAX_I64 && Digests.Parse(text).Ok?
          then Some(Descriptor(mediaType, Digests.Parse(text).value, size, GetText(value, "artifactType"),
                               Get(value, "annotations"), Get(value, "platform")))
          else None
        case _ => None
  }

  lemma DecodeObject(mediaType: string, digest: Digest, size: int)
    requires -MAX_I64 - 1 <= size <= MAX_I64
    ensures Decode(DescriptorObject(mediaType, digest, size))
              == Some(Descriptor(mediaType, digest, size, None, None, None))
    ensures Decode(Null).None?
  {
    Digests.ParseIffPrint(Digests.Print(digest), digest);
    hide Digests.Parse, Digests.Print;
    var value := DescriptorObject(mediaType, digest, size);
    assert GetText(value, "mediaType") == Some(mediaType) && GetText(value, "digest") == Some(Digests.Print(digest));
    assert GetText(value, "artifactType").None? && Get(value, "annotations").None? && Get(value, "platform").None?;
  }

  lemma DigestsDiffer()
    ensures LAYER != MANIFEST && LAYER != INDEX && MANIFEST != INDEX
  {
    assert LAYER.encoded[0] == 'a' && MANIFEST.encoded[0] == 'b' && INDEX.encoded[0] == 'c';
  }
}
