/** The client's walk over an unpacked OCI layout: manifests in post-order, and a verified inventory. */
module Walk {
  import opened Common
  import opened Digests
  import opened Manifests

  const MAX_MANIFEST_BYTES: nat := 8 * 1024 * 1024

  /** The files under `blobs/`, by the digest their path is made of. */
  type Layout = map<Digest, Bytes>

  datatype ManifestObject = ManifestObject(digest: Digest, mediaType: string, bytes: Bytes)

  datatype Failure =
    | ManifestTooLarge
    | ManifestInvalid(error: ManifestError)
    | InvalidSize(digest: Digest)
    | Unverified(digest: Digest)
    | BadLayout
    | NoImage

  // ---------------------------------------------------------------- what a walk has to achieve

  /** The descriptors of a manifest, read under its own media type. */
  function Items(codec: Codec, m: ManifestObject): seq<Item> {
    match Manifests.Parse(codec, m.bytes, Some(m.mediaType))
    case Ok(doc) => doc.items
    case Err(_) => []
  }

  /** The object is a manifest the client may send, under the type it was read with. */
  predicate Sendable(codec: Codec, m: ManifestObject) {
    && |m.bytes| <= MAX_MANIFEST_BYTES
    && m.digest == codec.hash(m.bytes)
    && var parsed := Manifests.Parse(codec, m.bytes, Some(m.mediaType));
       parsed.Ok? && parsed.value.mediaType == m.mediaType
  }

  predicate IsFile(codec: Codec, layout: Layout, d: Digest, size: int) {
    d in layout && codec.hash(layout[d]) == d && |layout[d]| == size
  }

  /** `digest` is the digest of one of the first `n` manifests. */
  ghost predicate Among(ms: seq<ManifestObject>, n: nat, digest: Digest)
    requires n <= |ms|
  {
    exists j :: 0 <= j < n && ms[j].digest == digest
  }

  predicate IsManifestFile(codec: Codec, layout: Layout, d: Descriptor) {
    d.size <= MAX_MANIFEST_BYTES && IsFile(codec, layout, d.digest, d.size)
  }

  /** Each manifest once, and every child before its parent. */
  ghost predicate PostOrder(codec: Codec, layout: Layout, ms: seq<ManifestObject>) {
    && (forall i :: 0 <= i < |ms| ==> Sendable(codec, ms[i]))
    && (forall i, j :: 0 <= i < j < |ms| ==> ms[i].digest != ms[j].digest)
    && (forall i, item :: 0 <= i < |ms| && item in Items(codec, ms[i]) && item.relationship.Manifest? ==>
          Among(ms, i, item.descriptor.digest) && IsManifestFile(codec, layout, item.descriptor))
  }

  /** Every config and layer is in the inventory at its descriptor's size. */
  ghost predicate Covers(codec: Codec, ms: seq<ManifestObject>, blobs: map<Digest, nat>) {
    forall i, item :: 0 <= i < |ms| && item in Items(codec, ms[i]) && NeedsBlob(item) ==>
      item.descriptor.digest in blobs && blobs[item.descriptor.digest] == item.descriptor.size
  }

  /** The inventory holds files of the layout that hash to their digest, at their size. */
  ghost predicate Verified(codec: Codec, layout: Layout, blobs: map<Digest, nat>) {
    forall d :: d in blobs ==> IsFile(codec, layout, d, blobs[d])
  }

  ghost predicate HasBlob(items: seq<Item>, d: Digest) {
    exists k :: 0 <= k < |items| && NeedsBlob(items[k]) && items[k].descriptor.digest == d
  }

  /** A manifest from number `from` on has the blob `d`. */
  ghost predicate BlobFrom(codec: Codec, ms: seq<ManifestObject>, from: nat, d: Digest) {
    exists i :: from <= i < |ms| && HasBlob(Items(codec, ms[i]), d)
  }

  /** `m` is the file a manifest descriptor of the list names, read under the descriptor's type. */
  ghost predicate Names(codec: Codec, layout: Layout, items: seq<Item>, m: ManifestObject) {
    exists k :: 0 <= k < |items| && NamedBy(codec, layout, items[k], m)
  }

  ghost predicate NamedBy(codec: Codec, layout: Layout, item: Item, m: ManifestObject) {
    && item.relationship.Manifest?
    && item.descriptor.digest == m.digest
    && IsFile(codec, layout, m.digest, item.descriptor.size) && layout[m.digest] == m.bytes
    && Manifests.Parse(codec, m.bytes, Some(item.descriptor.mediaType))
       == Manifests.Parse(codec, m.bytes, Some(m.mediaType))
  }

  /** Manifest `i` was reached from a later one. */
  ghost predicate Found(codec: Codec, layout: Layout, ms: seq<ManifestObject>, i: nat)
    requires i < |ms|
  {
    exists j :: i < j < |ms| && Names(codec, layout, Items(codec, ms[j]), ms[i])
  }

  /**
   What a walk in progress has added to the first `n` manifests and to `inventory`: manifests
   found from later ones or named by `items`, and the blobs of the new manifests and of `items`.
   */
  ghost predicate Added(codec: Codec, layout: Layout, n: nat, inventory: map<Digest, nat>,
                        ms: seq<ManifestObject>, blobs: map<Digest, nat>, items: seq<Item>)
  {
    && n <= |ms|
    && (forall i :: n <= i < |ms| ==> Found(codec, layout, ms, i) || Names(codec, layout, items, ms[i]))
    && (forall d :: d in blobs ==> d in inventory || BlobFrom(codec, ms, n, d) || HasBlob(items, d))
  }

  /** A finished visit: everything new but the last manifest, which is the root, was found from it. */
  ghost predicate Visited(codec: Codec, layout: Layout, n: nat, inventory: map<Digest, nat>,
                          ms: seq<ManifestObject>, blobs: map<Digest, nat>, root: Digest)
  {
    && n <= |ms|
    && (n < |ms| ==> ms[|ms| - 1].digest == root)
    && (forall i :: n <= i < |ms| - 1 ==> Found(codec, layout, ms, i))
    && (forall d :: d in blobs ==> d in inventory || BlobFrom(codec, ms, n, d))
  }

  lemma FoundMonotone(codec: Codec, layout: Layout, ms: seq<ManifestObject>, longer: seq<ManifestObject>)
    requires ms <= longer
    ensures forall i :: 0 <= i < |ms| && Found(codec, layout, ms, i) ==> Found(codec, layout, longer, i)
    ensures forall n: nat, d :: BlobFrom(codec, ms, n, d) ==> BlobFrom(codec, longer, n, d)
  {
    hide Names, HasBlob, Items;
    forall i | 0 <= i < |ms| && Found(codec, layout, ms, i)
      ensures Found(codec, layout, longer, i)
    {
      var j :| i < j < |ms| && Names(codec, layout, Items(codec, ms[j]), ms[i]);
      assert longer[j] == ms[j] && longer[i] == ms[i];
    }
    forall n: nat, d | BlobFrom(codec, ms, n, d)
      ensures BlobFrom(codec, longer, n, d)
    {
      var i :| n <= i < |ms| && HasBlob(Items(codec, ms[i]), d);
      assert longer[i] == ms[i];
    }
  }

  lemma MoreItems(codec: Codec, layout: Layout, items: seq<Item>, k: nat)
    requires k < |items|
    ensures forall m :: Names(codec, layout, items[..k], m) || NamedBy(codec, layout, items[k], m) ==>
              Names(codec, layout, items[..k + 1], m)
    ensures forall d :: HasBlob(items[..k], d) ==> HasBlob(items[..k + 1], d)
    ensures NeedsBlob(items[k]) ==> HasBlob(items[..k + 1], items[k].descriptor.digest)
  {
    hide NamedBy, NeedsBlob;
    var more := items[..k + 1];
    assert more[k] == items[k];
    forall m | Names(codec, layout, items[..k], m)
      ensures Names(codec, layout, more, m)
    {
      var i :| 0 <= i < k && NamedBy(codec, layout, items[..k][i], m);
      assert more[i] == items[..k][i];
    }
    forall d | HasBlob(items[..k], d)
      ensures HasBlob(more, d)
    {
      var i :| 0 <= i < k && NeedsBlob(items[..k][i]) && items[..k][i].descriptor.digest == d;
      assert more[i] == items[..k][i];
    }
  }

  lemma NothingAdded(codec: Codec, layout: Layout, inventory: map<Digest, nat>, ms: seq<ManifestObject>,
                     items: seq<Item>)
    ensures Added(codec, layout, |ms|, inventory, ms, inventory, items)
    ensures forall root :: Visited(codec, layout, |ms|, inventory, ms, inventory, root)
  {
  }

  /** One more descriptor: a blob, a manifest visited, or a subject passed over. */
  lemma AddItem(codec: Codec, layout: Layout, n: nat, inventory: map<Digest, nat>,
                ms: seq<ManifestObject>, blobs: map<Digest, nat>,
                ms': seq<ManifestObject>, blobs': map<Digest, nat>, items: seq<Item>, k: nat)
    requires k < |items| && Added(codec, layout, n, inventory, ms, blobs, items[..k])
    requires ms <= ms'
    requires var d := items[k].descriptor.digest;
      if NeedsBlob(items[k]) then ms' == ms && blobs'.Keys == blobs.Keys + {d}
      else
        && Visited(codec, layout, |ms|, blobs, ms', blobs', d)
        && (|ms| < |ms'| ==> NamedBy(codec, layout, items[k], ms'[|ms'| - 1]))
    ensures Added(codec, layout, n, inventory, ms', blobs', items[..k + 1])
  {
    hide Found, Names, NamedBy, HasBlob, NeedsBlob;
    FoundMonotone(codec, layout, ms, ms');
    MoreItems(codec, layout, items, k);
    forall d | d in blobs'
      ensures d in inventory || BlobFrom(codec, ms', n, d) || HasBlob(items[..k + 1], d)
    {
      if d !in blobs && BlobFrom(codec, ms', |ms|, d) {
        assert BlobFrom(codec, ms', n, d);
      }
    }
    hide BlobFrom;
  }

  lemma RootAdded(codec: Codec, layout: Layout, n: nat, inventory: map<Digest, nat>,
                  ms: seq<ManifestObject>, blobs: map<Digest, nat>, root: ManifestObject)
    requires Added(codec, layout, n, inventory, ms, blobs, Items(codec, root))
    ensures Visited(codec, layout, n, inventory, ms + [root], blobs, root.digest)
  {
    var all := ms + [root];
    assert all[|ms|] == root;
    FoundMonotone(codec, layout, ms, all);
    hide Names, HasBlob, Items;
    forall i | n <= i < |ms|
      ensures Found(codec, layout, all, i)
    {
      assert all[i] == ms[i];
      if !Found(codec, layout, ms, i) {
        assert Names(codec, layout, Items(codec, all[|ms|]), all[i]);
      }
    }
    forall d | HasBlob(Items(codec, root), d) && n <= |ms|
      ensures BlobFrom(codec, all, n, d)
    {
      assert HasBlob(Items(codec, all[|ms|]), d);
    }
  }

  lemma AmongSnoc(ms: seq<ManifestObject>, m: ManifestObject)
    ensures forall n: nat, d :: n <= |ms| ==> (Among(ms + [m], n, d) <==> Among(ms, n, d))
    ensures forall d :: Among(ms + [m], |ms| + 1, d) <==> Among(ms, |ms|, d) || d == m.digest
  {
    var all := ms + [m];
    assert all[|ms|] == m && forall j :: 0 <= j < |ms| ==> all[j] == ms[j];
    forall d
      ensures Among(all, |ms| + 1, d) <==> Among(ms, |ms|, d) || d == m.digest
    {
      if Among(ms, |ms|, d) {
        var j :| 0 <= j < |ms| && ms[j].digest == d;
        assert all[j].digest == d;
      }
    }
  }

  lemma PostOrderSnoc(codec: Codec, layout: Layout, ms: seq<ManifestObject>, m: ManifestObject)
    requires PostOrder(codec, layout, ms) && Sendable(codec, m) && !Among(ms, |ms|, m.digest)
    requires forall item :: item in Items(codec, m) && item.relationship.Manifest? ==>
               Among(ms, |ms|, item.descriptor.digest) && IsManifestFile(codec, layout, item.descriptor)
    ensures PostOrder(codec, layout, ms + [m])
  {
    hide Sendable, Items;
    AmongSnoc(ms, m);
    assert forall j :: 0 <= j < |ms| ==> ms[j].digest != m.digest;
    hide Among;
  }

  lemma CoversSnoc(codec: Codec, ms: seq<ManifestObject>, blobs: map<Digest, nat>, m: ManifestObject)
    requires Covers(codec, ms, blobs)
    requires forall item :: item in Items(codec, m) && NeedsBlob(item) ==>
               item.descriptor.digest in blobs && blobs[item.descriptor.digest] == item.descriptor.size
    ensures Covers(codec, ms + [m], blobs)
  {
    hide NeedsBlob, Items;
  }

  // ---------------------------------------------------------------- termination

  /** Children of `bytes`, however its type is taken, rank below it. */
  ghost predicate Descends(codec: Codec, rank: Digest -> nat, bytes: Bytes) {
    forall supplied :: var parsed := Manifests.Parse(codec, bytes, supplied); parsed.Ok? ==>
      forall k :: 0 <= k < |parsed.value.items| && parsed.value.items[k].relationship.Manifest? ==>
        rank(parsed.value.items[k].descriptor.digest) < rank(codec.hash(bytes))
  }

  /** No verified file leads back to itself. */
  ghost predicate Acyclic(codec: Codec, layout: Layout, rank: Digest -> nat) {
    forall d :: d in layout && codec.hash(layout[d]) == d ==> Descends(codec, rank, layout[d])
  }

  // ---------------------------------------------------------------- the walk

  /** Everything under `bytes` parses and verifies. */
  ghost predicate Sound(codec: Codec, layout: Layout, rank: Digest -> nat, bytes: Bytes, supplied: Option<string>)
    requires Acyclic(codec, layout, rank) && Descends(codec, rank, bytes)
    decreases rank(codec.hash(bytes)), 1
  {
    && |bytes| <= MAX_MANIFEST_BYTES
    && var parsed := Manifests.Parse(codec, bytes, supplied);
    && parsed.Ok?
    && forall k :: 0 <= k < |parsed.value.items| ==>
         SoundItem(codec, layout, rank, parsed.value.items[k], rank(codec.hash(bytes)))
  }

  ghost predicate SoundItem(codec: Codec, layout: Layout, rank: Digest -> nat, item: Item, bound: nat)
    requires Acyclic(codec, layout, rank)
    requires item.relationship.Manifest? ==> rank(item.descriptor.digest) < bound
    decreases bound, 0
  {
    var d := item.descriptor.digest;
    match item.relationship
    case Manifest =>
      && IsManifestFile(codec, layout, item.descriptor)
      && Sound(codec, layout, rank, layout[d], Some(item.descriptor.mediaType))
    case Subject => true
    case _ => IsFile(codec, layout, d, item.descriptor.size)
  }

  /**
   The digests visited after a visit of `bytes`, or None if it fails: a digest met before is parsed
   again, but what is below it is not.
   */
  ghost function Visits(codec: Codec, layout: Layout, rank: Digest -> nat, seen: set<Digest>,
                        bytes: Bytes, supplied: Option<string>): Option<set<Digest>>
    requires Acyclic(codec, layout, rank) && Descends(codec, rank, bytes)
    decreases rank(codec.hash(bytes)), 1, 0
  {
    var parsed := Manifests.Parse(codec, bytes, supplied);
    if |bytes| > MAX_MANIFEST_BYTES || parsed.Err? then None
    else if codec.hash(bytes) in seen then Some(seen)
    else
      match VisitsAll(codec, layout, rank, seen, parsed.value.items, rank(codec.hash(bytes)))
      case None => None
      case Some(below) => Some(below + {codec.hash(bytes)})
  }

  ghost function VisitsAll(codec: Codec, layout: Layout, rank: Digest -> nat, seen: set<Digest>,
                           items: seq<Item>, bound: nat): Option<set<Digest>>
    requires Acyclic(codec, layout, rank)
    requires forall k :: 0 <= k < |items| && items[k].relationship.Manifest? ==>
               rank(items[k].descriptor.digest) < bound
    decreases bound, 0, |items|
  {
    if items == [] then Some(seen)
    else
      match VisitsAll(codec, layout, rank, seen, items[..|items| - 1], bound)
      case None => None
      case Some(before) => VisitsItem(codec, layout, rank, before, items[|items| - 1], bound)
  }

  ghost function VisitsItem(codec: Codec, layout: Layout, rank: Digest -> nat, seen: set<Digest>,
                            item: Item, bound: nat): Option<set<Digest>>
    requires Acyclic(codec, layout, rank)
    requires item.relationship.Manifest? ==> rank(item.descriptor.digest) < bound
    decreases bound, 0, 0
  {
    var d := item.descriptor.digest;
    match item.relationship
    case Manifest =>
      if IsManifestFile(codec, layout, item.descriptor)
      then Visits(codec, layout, rank, seen, layout[d], Some(item.descriptor.mediaType))
      else None
    case Subject => Some(seen)
    case _ => if IsFile(codec, layout, d, item.descriptor.size) then Some(seen) else None
  }

  lemma FileDescends(codec: Codec, layout: Layout, rank: Digest -> nat, d: Descriptor)
    requires Acyclic(codec, layout, rank) && IsManifestFile(codec, layout, d)
    ensures Descends(codec, rank, layout[d.digest])
  {
    hide Descends;
  }

  lemma VisitsParts(codec: Codec, layout: Layout, rank: Digest -> nat, seen: set<Digest>,
                    bytes: Bytes, supplied: Option<string>)
    requires Acyclic(codec, layout, rank) && Descends(codec, rank, bytes)
    ensures var parsed := Manifests.Parse(codec, bytes, supplied);
      && (parsed.Ok? ==> forall k :: 0 <= k < |parsed.value.items| && parsed.value.items[k].relationship.Manifest? ==>
            rank(parsed.value.items[k].descriptor.digest) < rank(codec.hash(bytes)))
      && Visits(codec, layout, rank, seen, bytes, supplied) ==
         if |bytes| > MAX_MANIFEST_BYTES || parsed.Err? then None
         else if codec.hash(bytes) in seen then Some(seen)
         else
           var below := VisitsAll(codec, layout, rank, seen, parsed.value.items, rank(codec.hash(bytes)));
           if below.None? then None else Some(below.value + {codec.hash(bytes)})
  {
    hide Manifests.Parse, VisitsAll, Acyclic;
  }

  lemma VisitsOneMore(codec: Codec, layout: Layout, rank: Digest -> nat, seen: set<Digest>,
                      items: seq<Item>, bound: nat, i: nat)
    requires Acyclic(codec, layout, rank) && i < |items|
    requires forall k :: 0 <= k < |items| && items[k].relationship.Manifest? ==>
               rank(items[k].descriptor.digest) < bound
    ensures VisitsAll(codec, layout, rank, seen, items[..i + 1], bound) ==
            var before := VisitsAll(codec, layout, rank, seen, items[..i], bound);
            if before.None? then None else VisitsItem(codec, layout, rank, before.value, items[i], bound)
  {
    hide VisitsItem, Acyclic;
    assert items[..i + 1][..i] == items[..i];
  }

  /** A failure on the way is a failure of the whole. */
  lemma {:induction false} VisitsFails(codec: Codec, layout: Layout, rank: Digest -> nat, seen: set<Digest>,
                                       items: seq<Item>, bound: nat, i: nat)
    requires Acyclic(codec, layout, rank) && i <= |items|
    requires forall k :: 0 <= k < |items| && items[k].relationship.Manifest? ==>
               rank(items[k].descriptor.digest) < bound
    requires VisitsAll(codec, layout, rank, seen, items[..i], bound).None?
    ensures VisitsAll(codec, layout, rank, seen, items, bound).None?
    decreases |items| - i
  {
    hide Acyclic;
    if i < |items| {
      VisitsOneMore(codec, layout, rank, seen, items, bound, i);
      VisitsFails(codec, layout, rank, seen, items, bound, i + 1);
    } else {
      assert items[..i] == items;
    }
  }

  /** Where everything is sound, a visit succeeds whatever was visited before. */
  lemma {:induction false} SoundVisits(codec: Codec, layout: Layout, rank: Digest -> nat, seen: set<Digest>,
                                       bytes: Bytes, supplied: Option<string>)
    requires Acyclic(codec, layout, rank) && Descends(codec, rank, bytes)
    ensures Sound(codec, layout, rank, bytes, supplied) ==>
              Visits(codec, layout, rank, seen, bytes, supplied).Some?
    decreases rank(codec.hash(bytes)), 1, 0
  {
    hide Manifests.Parse, Acyclic, Descends, Sound, Visits, VisitsAll, SoundItem;
    SoundParts(codec, layout, rank, bytes, supplied);
    VisitsParts(codec, layout, rank, seen, bytes, supplied);
    if Sound(codec, layout, rank, bytes, supplied) && codec.hash(bytes) !in seen {
      var items := Manifests.Parse(codec, bytes, supplied).value.items;
      SoundVisitsAll(codec, layout, rank, seen, items, rank(codec.hash(bytes)));
    }
  }

  lemma {:induction false} SoundVisitsAll(codec: Codec, layout: Layout, rank: Digest -> nat, seen: set<Digest>,
                                          items: seq<Item>, bound: nat)
    requires Acyclic(codec, layout, rank)
    requires forall k :: 0 <= k < |items| && items[k].relationship.Manifest? ==>
               rank(items[k].descriptor.digest) < bound
    requires forall k :: 0 <= k < |items| ==> SoundItem(codec, layout, rank, items[k], bound)
    ensures VisitsAll(codec, layout, rank, seen, items, bound).Some?
    decreases bound, 0, |items|
  {
    hide Acyclic, Sound, Visits;
    if items != [] {
      var front, last := items[..|items| - 1], items[|items| - 1];
      SoundVisitsAll(codec, layout, rank, seen, front, bound);
      var before := VisitsAll(codec, layout, rank, seen, front, bound).value;
      assert SoundItem(codec, layout, rank, last, bound);
      if last.relationship.Manifest? {
        FileDescends(codec, layout, rank, last.descriptor);
        SoundVisits(codec, layout, rank, before, layout[last.descriptor.digest], Some(last.descriptor.mediaType));
      }
    }
  }

  lemma DocumentIsSendable(codec: Codec, doc: Document)
    requires |doc.raw| <= MAX_MANIFEST_BYTES && Manifests.Parse(codec, doc.raw, Some(doc.mediaType)) == Ok(doc)
    ensures var m := ManifestObject(doc.digest, doc.mediaType, doc.raw);
            Items(codec, m) == doc.items && Sendable(codec, m)
  {
  }

  /** What a walk needs to know of a document it has read. */
  lemma ParsedIs(codec: Codec, bytes: Bytes, supplied: Option<string>)
    requires Manifests.Parse(codec, bytes, supplied).Ok?
    ensures var doc := Manifests.Parse(codec, bytes, supplied).value;
      && doc.raw == bytes && doc.digest == codec.hash(bytes)
      && Manifests.Parse(codec, bytes, Some(doc.mediaType)) == Ok(doc)
      && Items(codec, ManifestObject(doc.digest, doc.mediaType, bytes)) == doc.items
  {
    ReparseIsStable(codec, bytes, supplied);
  }

  lemma SoundParts(codec: Codec, layout: Layout, rank: Digest -> nat, bytes: Bytes, supplied: Option<string>)
    requires Acyclic(codec, layout, rank) && Descends(codec, rank, bytes)
    ensures var parsed := Manifests.Parse(codec, bytes, supplied);
      && (parsed.Ok? ==> forall k :: 0 <= k < |parsed.value.items| && parsed.value.items[k].relationship.Manifest? ==>
            rank(parsed.value.items[k].descriptor.digest) < rank(codec.hash(bytes)))
      && (Sound(codec, layout, rank, bytes, supplied) <==>
            |bytes| <= MAX_MANIFEST_BYTES && parsed.Ok?
            && forall k :: 0 <= k < |parsed.value.items| ==>
                 SoundItem(codec, layout, rank, parsed.value.items[k], rank(codec.hash(bytes))))
  {
    hide Manifests.Parse, SoundItem, Acyclic;
  }

  method VerifyFile(codec: Codec, layout: Layout, d: Digest, size: int) returns (ok: bool)
    ensures ok == IsFile(codec, layout, d, size)
  {
    if size < 0 || d !in layout { return false; }
    return codec.hash(layout[d]) == d && |layout[d]| == size;
  }

  method ReadDescriptor(codec: Codec, layout: Layout, d: Digest, size: int) returns (r: Result<Bytes, Failure>)
    ensures r.Ok? <==> size <= MAX_MANIFEST_BYTES && IsFile(codec, layout, d, size)
    ensures r.Ok? ==> r.value == layout[d]
  {
    if size < 0 || size > MAX_MANIFEST_BYTES { return Err(InvalidSize(d)); }
    var ok := VerifyFile(codec, layout, d, size);
    return if ok then Ok(layout[d]) else Err(Unverified(d));
  }

  class GraphContext {
    const codec: Codec
    const layout: Layout
    var blobs: map<Digest, nat>
    var manifests: seq<ManifestObject>
    var visited: set<Digest>

    ghost predicate Valid()
      reads this
    {
      && PostOrder(codec, layout, manifests)
      && Covers(codec, manifests, blobs)
      && Verified(codec, layout, blobs)
      && forall d :: d in visited <==> Among(manifests, |manifests|, d)
    }

    constructor (codec: Codec, layout: Layout)
      ensures this.codec == codec && this.layout == layout
      ensures Valid() && manifests == [] && blobs == map[] && visited == {}
    {
      this.codec := codec;
      this.layout := layout;
      blobs := map[];
      manifests := [];
      visited := {};
    }

    /** What a visit, or a part of one, may have done since `ms` and `inventory`. */
    ghost predicate Grown(ms: seq<ManifestObject>, inventory: map<Digest, nat>)
      reads this
    {
      && Valid()
      && ms <= manifests
      && forall d :: d in inventory ==> d in blobs && blobs[d] == inventory[d]
    }

    /** One config or layer: verify the file and enter it once. */
    method VisitBlob(d: Digest, size: int) returns (ok: bool)
      requires Valid()
      modifies this`blobs
      ensures ok == IsFile(codec, layout, d, size)
      ensures Grown(old(manifests), old(blobs))
      ensures blobs.Keys == if ok then old(blobs).Keys + {d} else old(blobs).Keys
      ensures ok ==> blobs[d] == size
    {
      ok := VerifyFile(codec, layout, d, size);
      if ok && d !in blobs {
        blobs := blobs[d := size];
      }
    }

    /** A descriptor the visit has dealt with. */
    ghost predicate Done(item: Item)
      reads this
    {
      var d := item.descriptor.digest;
      && (NeedsBlob(item) ==> d in blobs && blobs[d] == item.descriptor.size)
      && (item.relationship.Manifest? ==> d in visited && IsManifestFile(codec, layout, item.descriptor))
    }

    /** All below the document is done: enter it. */
    method Enter(doc: Document)
      requires Valid() && doc.digest !in visited
      requires |doc.raw| <= MAX_MANIFEST_BYTES && Manifests.Parse(codec, doc.raw, Some(doc.mediaType)) == Ok(doc)
      requires forall k :: 0 <= k < |doc.items| ==> Done(doc.items[k])
      modifies this`visited, this`manifests
      ensures Grown(old(manifests), old(blobs))
      ensures manifests == old(manifests) + [ManifestObject(doc.digest, doc.mediaType, doc.raw)]
      ensures visited == old(visited) + {doc.digest}
    {
      hide Manifests.Parse, Items, Sendable, NeedsBlob, PostOrder, Covers, Verified, Among;
      var m := ManifestObject(doc.digest, doc.mediaType, doc.raw);
      DocumentIsSendable(codec, doc);
      PostOrderSnoc(codec, layout, manifests, m);
      CoversSnoc(codec, manifests, blobs, m);
      AmongSnoc(manifests, m);
      visited := visited + {doc.digest};
      manifests := manifests + [m];
    }

    /** The last manifest is the root, under the type it was read with. */
    ghost predicate RootIs(bytes: Bytes, supplied: Option<string>)
      reads this
    {
      && manifests != []
      && var last := manifests[|manifests| - 1];
         last.bytes == bytes && last.digest == codec.hash(bytes)
         && Manifests.Parse(codec, bytes, Some(last.mediaType)) == Manifests.Parse(codec, bytes, supplied)
    }

    /** A visit that succeeded found the root, if it was new, and what is below it. */
    ghost predicate Inventoried(ms: seq<ManifestObject>, inventory: map<Digest, nat>, seen: set<Digest>,
                                bytes: Bytes, supplied: Option<string>)
      reads this
    {
      var root := codec.hash(bytes);
      && root in visited
      && Visited(codec, layout, |ms|, inventory, manifests, blobs, root)
      && if root in seen then manifests == ms else RootIs(bytes, supplied)
    }

    /** `visit_manifest`. */
    method VisitManifest(bytes: Bytes, supplied: Option<string>, ghost rank: Digest -> nat)
        returns (r: Result<Digest, Failure>)
      requires Valid() && Acyclic(codec, layout, rank) && Descends(codec, rank, bytes)
      modifies this
      ensures Grown(old(manifests), old(blobs))
      ensures (if r.Ok? then Some(visited) else None) == Visits(codec, layout, rank, old(visited), bytes, supplied)
      ensures Sound(codec, layout, rank, bytes, supplied) ==> r.Ok?
      ensures r.Ok? ==>
        r.value == codec.hash(bytes) && Inventoried(old(manifests), old(blobs), old(visited), bytes, supplied)
      ensures old(visited) <= visited
      ensures forall d :: d in visited ==> d in old(visited) || rank(d) <= rank(codec.hash(bytes))
      decreases rank(codec.hash(bytes)), 2
    {
      hide Manifests.Parse, PostOrder, Covers, Verified, Acyclic, Descends, Sound, Visits, VisitsAll, Among, Added,
            Visited, Done, RootIs;
      VisitsParts(codec, layout, rank, visited, bytes, supplied);
      SoundVisits(codec, layout, rank, visited, bytes, supplied);
      if |bytes| > MAX_MANIFEST_BYTES { return Err(ManifestTooLarge); }
      var parsed := ParseDocument(codec, bytes, supplied);
      if parsed.Err? { return Err(Failure.ManifestInvalid(parsed.error)); }
      var doc := parsed.value;
      ParsedIs(codec, bytes, supplied);
      if doc.digest in visited {
        NothingAdded(codec, layout, blobs, manifests, []);
        return Ok(doc.digest);
      }
      var failure := VisitItems(doc.items, rank, doc.digest);
      if failure.Some? { return Err(failure.value); }
      ghost var ms := manifests;
      Enter(doc);
      RootAdded(codec, layout, |old(manifests)|, old(blobs), ms, blobs, manifests[|ms|]);
      LastIsRoot(bytes, supplied, doc);
      return Ok(doc.digest);
    }

    lemma LastIsRoot(bytes: Bytes, supplied: Option<string>, doc: Document)
      requires Manifests.Parse(codec, bytes, supplied) == Ok(doc) == Manifests.Parse(codec, bytes, Some(doc.mediaType))
      requires manifests != [] && manifests[|manifests| - 1] == ManifestObject(codec.hash(bytes), doc.mediaType, bytes)
      ensures RootIs(bytes, supplied)
    {
      hide Manifests.Parse;
    }

    /** The loop of `visit_manifest`. */
    method VisitItems(items: seq<Item>, ghost rank: Digest -> nat, ghost parent: Digest)
        returns (failure: Option<Failure>)
      requires Valid() && Acyclic(codec, layout, rank)
      requires forall k :: 0 <= k < |items| && items[k].relationship.Manifest? ==>
                 rank(items[k].descriptor.digest) < rank(parent)
      modifies this
      ensures Grown(old(manifests), old(blobs))
      ensures old(visited) <= visited
      ensures forall d :: d in visited ==> d in old(visited) || rank(d) < rank(parent)
      ensures failure.None? ==> forall k :: 0 <= k < |items| ==> Done(items[k])
      ensures failure.None? ==> Added(codec, layout, |old(manifests)|, old(blobs), manifests, blobs, items)
      ensures (if failure.None? then Some(visited) else None)
              == VisitsAll(codec, layout, rank, old(visited), items, rank(parent))
      decreases rank(parent), 1
    {
      hide Manifests.Parse, PostOrder, Covers, Verified, Acyclic, Among, Found, Names, HasBlob, BlobFrom, Added,
            Visited, VisitsItem;
      NothingAdded(codec, layout, blobs, manifests, items[..0]);
      ghost var seen := visited;
      assert VisitsAll(codec, layout, rank, seen, items[..0], rank(parent)) == Some(seen);
      hide VisitsAll;
      failure := None;
      for i := 0 to |items|
        invariant Grown(old(manifests), old(blobs))
        invariant old(visited) <= visited
        invariant forall d :: d in visited ==> d in old(visited) || rank(d) < rank(parent)
        invariant forall k :: 0 <= k < i ==> Done(items[k])
        invariant Added(codec, layout, |old(manifests)|, old(blobs), manifests, blobs, items[..i])
        invariant failure.None?
        invariant VisitsAll(codec, layout, rank, seen, items[..i], rank(parent)) == Some(visited)
      {
        ghost var ms, inventory := manifests, blobs;
        VisitsOneMore(codec, layout, rank, seen, items, rank(parent), i);
        failure := VisitItem(items[i], rank, parent);
        if failure.Some? {
          VisitsFails(codec, layout, rank, seen, items, rank(parent), i + 1);
          return;
        }
        AddItem(codec, layout, |old(manifests)|, old(blobs), ms, inventory, manifests, blobs, items, i);
      }
      assert items[..|items|] == items;
    }

    /** One turn of the loop of `visit_manifest`. */
    method VisitItem(item: Item, ghost rank: Digest -> nat, ghost parent: Digest) returns (failure: Option<Failure>)
      requires Valid() && Acyclic(codec, layout, rank)
      requires item.relationship.Manifest? ==> rank(item.descriptor.digest) < rank(parent)
      modifies this
      ensures Grown(old(manifests), old(blobs))
      ensures old(visited) <= visited
      ensures forall d :: d in visited ==> d in old(visited) || rank(d) < rank(parent)
      ensures failure.None? ==>
        && Done(item)
        && var d := item.descriptor.digest;
           if NeedsBlob(item) then manifests == old(manifests) && blobs.Keys == old(blobs.Keys) + {d}
           else
             && Visited(codec, layout, |old(manifests)|, old(blobs), manifests, blobs, d)
             && (|old(manifests)| < |manifests| ==> NamedBy(codec, layout, item, manifests[|manifests| - 1]))
      ensures (if failure.None? then Some(visited) else None)
              == VisitsItem(codec, layout, rank, old(visited), item, rank(parent))
      decreases rank(parent), 0
    {
      hide Manifests.Parse, PostOrder, Covers, Verified, Descends, Sound, Visits, Among, Found, HasBlob, BlobFrom,
            NamedBy, Inventoried;
      NothingAdded(codec, layout, blobs, manifests, []);
      match item.relationship
      case Config =>
        var ok := VisitBlob(item.descriptor.digest, item.descriptor.size);
        return if ok then None else Some(Unverified(item.descriptor.digest));
      case Layer =>
        var ok := VisitBlob(item.descriptor.digest, item.descriptor.size);
        return if ok then None else Some(Unverified(item.descriptor.digest));
      case Manifest =>
        var child := ReadDescriptor(codec, layout, item.descriptor.digest, item.descriptor.size);
        if child.Err? { return Some(child.error); }
        var visit := VisitManifest(child.value, Some(item.descriptor.mediaType), rank);
        if visit.Err? { return Some(visit.error); }
        ChildNamed(old(manifests), old(blobs), old(visited), item);
        return None;
      case Subject =>
        return None;
    }

    lemma ChildNamed(ms: seq<ManifestObject>, inventory: map<Digest, nat>, seen: set<Digest>, item: Item)
      requires item.relationship.Manifest? && IsFile(codec, layout, item.descriptor.digest, item.descriptor.size)
      requires Inventoried(ms, inventory, seen, layout[item.descriptor.digest], Some(item.descriptor.mediaType))
      ensures Visited(codec, layout, |ms|, inventory, manifests, blobs, item.descriptor.digest)
      ensures item.descriptor.digest in visited
      ensures |ms| < |manifests| ==> NamedBy(codec, layout, item, manifests[|manifests| - 1])
    {
      hide Manifests.Parse, Visited;
      assert Visited(codec, layout, |ms|, inventory, manifests, blobs, item.descriptor.digest);
    }
  }

  // ---------------------------------------------------------------- the prepared image

  datatype BlobFile = BlobFile(digest: Digest, size: nat)

  datatype PreparedImage = PreparedImage(blobs: seq<BlobFile>, manifests: seq<ManifestObject>, root: Digest)

  /** An unpacked archive: the marker file, the index, and what is under `blobs/`. */
  datatype Archive = Archive(marker: Option<Bytes>, index: Option<Bytes>, files: Layout)

  /** What the client may rely on when it pushes an image. */
  ghost predicate Prepared(codec: Codec, layout: Layout, image: PreparedImage) {
    var ms := image.manifests;
    && PostOrder(codec, layout, ms)
    && ms != [] && ms[|ms| - 1].digest == image.root
    && (forall i :: 0 <= i < |ms| - 1 ==> Found(codec, layout, ms, i))
    && (forall k :: 0 <= k < |image.blobs| ==>
          IsFile(codec, layout, image.blobs[k].digest, image.blobs[k].size)
          && BlobFrom(codec, ms, 0, image.blobs[k].digest))
    && (forall j, k :: 0 <= j < k < |image.blobs| ==> image.blobs[j].digest != image.blobs[k].digest)
    && (forall i, item :: 0 <= i < |ms| && item in Items(codec, ms[i]) && NeedsBlob(item) ==>
          exists k :: 0 <= k < |image.blobs| && image.blobs[k].digest == item.descriptor.digest
                      && image.blobs[k].size == item.descriptor.size)
  }

  /** The manifests an index names. */
  function Roots(items: seq<Item>): seq<Descriptor> {
    if items == [] then []
    else
      var front := Roots(items[..|items| - 1]);
      var last := items[|items| - 1];
      if last.relationship.Manifest? then front + [last.descriptor] else front
  }

  lemma {:induction false} RootsAreNamed(items: seq<Item>)
    ensures forall d :: d in Roots(items) <==>
              exists k :: 0 <= k < |items| && items[k].relationship.Manifest? && items[k].descriptor == d
  {
    if items != [] {
      var front := items[..|items| - 1];
      RootsAreNamed(front);
      forall d | d in Roots(items)
        ensures exists k :: 0 <= k < |items| && items[k].relationship.Manifest? && items[k].descriptor == d
      {
        if d in Roots(front) {
          var k :| 0 <= k < |front| && front[k].relationship.Manifest? && front[k].descriptor == d;
          assert items[k] == front[k];
        }
      }
    }
  }

  function ManifestCount(items: seq<Item>): nat {
    if items == [] then 0
    else ManifestCount(items[..|items| - 1]) + if items[|items| - 1].relationship.Manifest? then 1 else 0
  }

  /** There is one root for each Manifest descriptor, and they are in the same order. */
  lemma {:induction false} RootsInOrder(items: seq<Item>)
    ensures |Roots(items)| == ManifestCount(items)
    ensures forall i :: 0 <= i < |items| && items[i].relationship.Manifest? ==>
              ManifestCount(items[..i]) < |Roots(items)|
              && Roots(items)[ManifestCount(items[..i])] == items[i].descriptor
  {
    if items != [] {
      var n := |items| - 1;
      var front := items[..n];
      RootsInOrder(front);
      forall i | 0 <= i < n && items[i].relationship.Manifest?
        ensures ManifestCount(items[..i]) < |Roots(items)|
                && Roots(items)[ManifestCount(items[..i])] == items[i].descriptor
      {
        assert items[..i] == front[..i] && front[i] == items[i];
      }
    }
  }

  function MarkerVersion(codec: Codec, archive: Archive): Option<string> {
    if archive.marker.None? || codec.json(archive.marker.value).None? then None
    else GetText(codec.json(archive.marker.value).value, "imageLayoutVersion")
  }

  /** The document the walk starts from: the only manifest of the index, or the index itself. */
  function Entry(codec: Codec, archive: Archive): Option<(Bytes, string)> {
    if MarkerVersion(codec, archive) != Some("1.0.0") || archive.index.None? then None
    else
      match Manifests.Parse(codec, archive.index.value, Some(OCI_IMAGE_INDEX))
      case Err(_) => None
      case Ok(index) =>
        var roots := Roots(index.items);
        if roots == [] then None
        else if |roots| > 1 then Some((archive.index.value, OCI_IMAGE_INDEX))
        else if IsManifestFile(codec, archive.files, roots[0])
          then Some((archive.files[roots[0].digest], roots[0].mediaType))
        else None
  }

  /** The rows of a map, in whatever order they come. */
  method IntoValues(inventory: map<Digest, nat>) returns (blobs: seq<BlobFile>)
    ensures forall k :: 0 <= k < |blobs| ==> blobs[k].digest in inventory && blobs[k].size == inventory[blobs[k].digest]
    ensures forall j, k :: 0 <= j < k < |blobs| ==> blobs[j].digest != blobs[k].digest
    ensures forall d :: d in inventory ==> exists k :: 0 <= k < |blobs| && blobs[k].digest == d
  {
    blobs := [];
    var rest := inventory.Keys;
    while |rest| > 0
      invariant rest <= inventory.Keys
      invariant forall k :: 0 <= k < |blobs| ==>
                  blobs[k].digest in inventory && blobs[k].digest !in rest
                  && blobs[k].size == inventory[blobs[k].digest]
      invariant forall j, k :: 0 <= j < k < |blobs| ==> blobs[j].digest != blobs[k].digest
      invariant forall d :: d in inventory ==> d in rest || exists k :: 0 <= k < |blobs| && blobs[k].digest == d
      decreases |rest|
    {
      var d :| d in rest;
      ghost var before := blobs;
      rest := rest - {d};
      blobs := blobs + [BlobFile(d, inventory[d])];
      assert blobs[|before|].digest == d;
      assert forall k :: 0 <= k < |before| ==> blobs[k] == before[k];
      forall e | e in inventory && e !in rest && e != d
        ensures exists k :: 0 <= k < |blobs| && blobs[k].digest == e
      {
        var k :| 0 <= k < |before| && before[k].digest == e;
        assert blobs[k].digest == e;
      }
    }
    assert rest == {};
  }

  /** The visit of the entry document, with nothing visited before, succeeds. */
  ghost predicate Succeeds(codec: Codec, archive: Archive, rank: Digest -> nat)
    requires Acyclic(codec, archive.files, rank) && Entry(codec, archive).Some?
    requires Descends(codec, rank, Entry(codec, archive).value.0)
  {
    var (bytes, mediaType) := Entry(codec, archive).value;
    Visits(codec, archive.files, rank, {}, bytes, Some(mediaType)).Some?
  }

  /** `prepare_oci_archive_sync`, once the archive is unpacked. */
  method PrepareOciArchive(codec: Codec, archive: Archive, ghost rank: Digest -> nat)
      returns (r: Result<PreparedImage, Failure>)
    requires Acyclic(codec, archive.files, rank)
    requires archive.index.Some? ==> Descends(codec, rank, archive.index.value)
    ensures r.Ok? ==> Prepared(codec, archive.files, r.value)
    ensures r.Ok? ==> Entry(codec, archive).Some? && Starts(codec, r.value, Entry(codec, archive).value)
    ensures Entry(codec, archive).Some? ==> Descends(codec, rank, Entry(codec, archive).value.0)
    ensures r.Ok? <==> Entry(codec, archive).Some? && Succeeds(codec, archive, rank)
    ensures Entry(codec, archive).Some? ==>
              var (bytes, mediaType) := Entry(codec, archive).value;
              Sound(codec, archive.files, rank, bytes, Some(mediaType)) ==> r.Ok?
  {
    hide Manifests.Parse, Acyclic, Descends, Sound, Visits, PostOrder, Covers, Verified, GraphContext.Inventoried;
    if MarkerVersion(codec, archive) != Some("1.0.0") { return Err(BadLayout); }
    if archive.index.None? { return Err(BadLayout); }
    var index := ParseDocument(codec, archive.index.value, Some(OCI_IMAGE_INDEX));
    if index.Err? { return Err(Failure.ManifestInvalid(index.error)); }
    var roots := Roots(index.value.items);
    if roots == [] { return Err(NoImage); }

    var bytes, mediaType := archive.index.value, OCI_IMAGE_INDEX;
    if |roots| == 1 {
      var file := ReadDescriptor(codec, archive.files, roots[0].digest, roots[0].size);
      if file.Err? { return Err(file.error); }
      bytes, mediaType := file.value, roots[0].mediaType;
      FileDescends(codec, archive.files, rank, roots[0]);
    }
    var context := new GraphContext(codec, archive.files);
    var root := context.VisitManifest(bytes, Some(mediaType), rank);
    if root.Err? { return Err(root.error); }
    var blobs := IntoValues(context.blobs);
    var image := PreparedImage(blobs, context.manifests, root.value);
    WalkPrepares(context, image, bytes, Some(mediaType));
    return Ok(image);
  }

  /** The image's root is the given document, read under the given type. */
  ghost predicate Starts(codec: Codec, image: PreparedImage, entry: (Bytes, string)) {
    && image.manifests != []
    && var last := image.manifests[|image.manifests| - 1];
       && last.bytes == entry.0
       && Manifests.Parse(codec, last.bytes, Some(last.mediaType)) == Manifests.Parse(codec, last.bytes, Some(entry.1))
  }

  lemma WalkPrepares(context: GraphContext, image: PreparedImage, bytes: Bytes, supplied: Option<string>)
    requires context.Valid() && context.Inventoried([], map[], {}, bytes, supplied)
    requires image.manifests == context.manifests && image.root == context.codec.hash(bytes)
    requires forall k :: 0 <= k < |image.blobs| ==>
               image.blobs[k].digest in context.blobs && image.blobs[k].size == context.blobs[image.blobs[k].digest]
    requires forall j, k :: 0 <= j < k < |image.blobs| ==> image.blobs[j].digest != image.blobs[k].digest
    requires forall d :: d in context.blobs ==> exists k :: 0 <= k < |image.blobs| && image.blobs[k].digest == d
    ensures Prepared(context.codec, context.layout, image)
    ensures supplied.Some? ==> Starts(context.codec, image, (bytes, supplied.value))
  {
    hide Manifests.Parse, PostOrder, Found, BlobFrom, NeedsBlob, Items;
  }
}
