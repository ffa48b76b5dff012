/** What an accepted archive is worth: the pinned digest fixes every byte that was checked. */
module MerkleUniqueness {
  import opened Wrappers
  import opened Filters
  import opened Json
  import opened ByteStrings
  import opened OciArchive

  /** No two different contents found in the two archives have the same digest. */
  ghost predicate NoCollision(lib: Library, a: seq<Member>, b: seq<Member>) {
    forall i, j :: 0 <= i < |a| && 0 <= j < |b| && lib.hash(a[i].data) == lib.hash(b[j].data) ==> a[i].data == b[j].data
  }

  /** The same for entries reached by name. */
  ghost predicate NoEntryCollision(lib: Library, a: Members, b: Members) {
    forall x, y :: x in a && y in b && lib.hash(a[x].data) == lib.hash(b[y].data) ==> a[x].data == b[y].data
  }

  lemma EntriesDoNotCollide(lib: Library, a: seq<Member>, b: seq<Member>)
    requires NoCollision(lib, a, b) && MembersOf(a).Success? && MembersOf(b).Success?
    ensures NoEntryCollision(lib, MembersOf(a).value, MembersOf(b).value)
  {
    MembersAreTheEntries(a);
    MembersAreTheEntries(b);
    var ma, mb := MembersOf(a).value, MembersOf(b).value;
    forall x, y | x in ma && y in mb && lib.hash(ma[x].data) == lib.hash(mb[y].data) ensures ma[x].data == mb[y].data {
      var i :| 0 <= i < |a| && a[i] == ma[x];
      var j :| 0 <= j < |b| && b[j] == mb[y];
    }
  }

  // ---- One blob, one manifest ----

  lemma SameDigestSameBlob(lib: Library, a: Members, b: Members, d: Json)
    requires NoEntryCollision(lib, a, b)
    requires Blob(lib, a, d).Success? && Blob(lib, b, d).Success?
    ensures Blob(lib, a, d) == Blob(lib, b, d)
  {
  }

  lemma {:induction false} SameLayers(lib: Library, a: Members, b: Members, layers: seq<Json>)
    requires NoEntryCollision(lib, a, b)
    requires LayerBlobs(lib, a, layers).Success? && LayerBlobs(lib, b, layers).Success?
    ensures LayerBlobs(lib, a, layers) == LayerBlobs(lib, b, layers)
  {
    if layers != [] {
      SameLayers(lib, a, b, layers[..|layers| - 1]);
      SameDigestSameBlob(lib, a, b, layers[|layers| - 1]);
    }
  }

  lemma SameManifestSameImage(lib: Library, a: Members, b: Members, manifest: Json)
    requires NoEntryCollision(lib, a, b)
    requires ManifestImage(lib, a, manifest).Success? && ManifestImage(lib, b, manifest).Success?
    ensures ManifestImage(lib, a, manifest) == ManifestImage(lib, b, manifest)
  {
    SameDigestSameBlob(lib, a, b, Get(manifest.fields, "config"));
    SameLayers(lib, a, b, Get(manifest.fields, "layers").items);
  }

  lemma SamePayloadSameImage(lib: Library, a: Members, b: Members, media: MediaKind, payload: Json)
    requires NoEntryCollision(lib, a, b)
    requires RootImage(lib, a, media, payload).Success? && RootImage(lib, b, media, payload).Success?
    ensures RootImage(lib, a, media, payload) == RootImage(lib, b, media, payload)
  {
    if media.IndexMedia? {
      var child := PlatformDescriptor(payload).value;
      SameDigestSameBlob(lib, a, b, child);
      SameManifestSameImage(lib, a, b, lib.parse(Blob(lib, a, child).value).value);
    } else {
      SameManifestSameImage(lib, a, b, payload);
    }
  }

  // ---- The root ----

  /** The root blob of an accepted archive has the pinned digest. */
  lemma RootHasPinnedDigest(lib: Library, members: Members, digest: string)
    requires RootDescriptor(lib, members, digest).Success?
    requires Blob(lib, members, RootDescriptor(lib, members, digest).value).Success?
    ensures var root := RootDescriptor(lib, members, digest).value;
            root.Obj? && DigestOf(root) == [digest] && lib.hash(Blob(lib, members, root).value) == digest
  {
    var root := RootDescriptor(lib, members, digest).value;
    var index := lib.parse(members["index.json"].data).value;
    var descriptors := Get(index.fields, "manifests").items;
    FilterMembers(descriptors, Pinned("sha256:" + digest).Holds);
    assert root in Filter(descriptors, Pinned("sha256:" + digest).Holds);
    assert ("sha256:" + digest)[7..] == digest;
  }

  /** The archive is accepted for the image, and holds `found`. */
  ghost predicate Accepts(lib: Library, archive: seq<Member>, image: string, found: Image) {
    Verified(lib, archive, image, IMAGE_ARCHIVE_PLATFORM) == Success(found)
  }

  /** What the blob of the pinned root descriptor parses to, if the archive has one. */
  function RootPayload(lib: Library, archive: seq<Member>, image: string): Option<Json> {
    if ImageDigest(image).None? || MembersOf(archive).Failure? then None
    else
      var members := MembersOf(archive).value;
      var root := RootDescriptor(lib, members, ImageDigest(image).value);
      if root.Failure? || Blob(lib, members, root.value).Failure? then None
      else lib.parse(Blob(lib, members, root.value).value)
  }

  /** The payload is at once an image index with one child for the platform and an image manifest with layers. */
  predicate ReadsAsBoth(payload: Json) {
    && PlatformDescriptor(payload).Success? && HasSchemaTwo(payload)
    && Get(payload.fields, "layers").List? && Get(payload.fields, "layers").items != []
  }

  /** The root payload and its media kind, of an accepted archive. */
  lemma AcceptedRoot(lib: Library, archive: seq<Member>, image: string, found: Image)
    returns (media: MediaKind, data: Bytes, payload: Json)
    requires Accepts(lib, archive, image, found)
    ensures MembersOf(archive).Success? && ImageDigest(image).Some?
    ensures lib.hash(data) == ImageDigest(image).value
    ensures lib.parse(data) == RootPayload(lib, archive, image) == Some(payload)
    ensures exists name :: name in MembersOf(archive).value && MembersOf(archive).value[name].data == data
    ensures var root := RootImage(lib, MembersOf(archive).value, media, payload);
            root.Success? && found == root.value.(reached := [ImageDigest(image).value] + root.value.reached)
  {
    var members, digest := MembersOf(archive).value, ImageDigest(image).value;
    RootHasPinnedDigest(lib, members, digest);
    var root := RootDescriptor(lib, members, digest).value;
    media := MediaKindOf(Get(root.fields, "mediaType"));
    data := Blob(lib, members, root).value;
    payload := lib.parse(data).value;
    assert members[BlobName(DescriptorDigest(root).value.0)].data == data;
  }

  /** The manifest an accepted root leads to. */
  lemma ManifestOf(lib: Library, members: Members, media: MediaKind, payload: Json) returns (manifest: Json)
    requires RootImage(lib, members, media, payload).Success?
    ensures ManifestImage(lib, members, manifest).Success?
    ensures var found := RootImage(lib, members, media, payload).value;
            && found.config == ManifestImage(lib, members, manifest).value.config
            && found.layers == ManifestImage(lib, members, manifest).value.layers
  {
    manifest := payload;
    if media.IndexMedia? {
      manifest := lib.parse(Blob(lib, members, PlatformDescriptor(payload).value).value).value;
    }
  }

  /** The descriptor states this content's size and digest. */
  ghost predicate StatedFor(lib: Library, descriptor: Json, data: Bytes) {
    DescriptorDigest(descriptor) == Success((lib.hash(data), |data|))
  }

  lemma {:induction false} LayersAreStated(lib: Library, members: Members, layers: seq<Json>)
    requires LayerBlobs(lib, members, layers).Success?
    ensures |LayerBlobs(lib, members, layers).value| == |layers|
    ensures forall i :: 0 <= i < |layers| ==> StatedFor(lib, layers[i], LayerBlobs(lib, members, layers).value[i])
  {
    if layers != [] {
      LayersAreStated(lib, members, layers[..|layers| - 1]);
    }
  }

  /**
   What acceptance means: all entries are safe and regular under distinct names, the config is a JSON object for
   the required platform, there is at least one layer, and the blobs of the config and of each layer have the
   sizes and digests that one manifest states for them.
   */
  lemma AcceptedArchiveIsSound(lib: Library, archive: seq<Member>, image: string, found: Image)
    returns (manifest: Json)
    requires Accepts(lib, archive, image, found)
    ensures NamesAreDistinct(archive) && AllAccepted(archive)
    ensures lib.parse(found.config).Some? && ConfigMatches(lib.parse(found.config).value)
    ensures HasSchemaTwo(manifest) && Get(manifest.fields, "layers").List?
    ensures StatedFor(lib, Get(manifest.fields, "config"), found.config)
    ensures |found.layers| == |Get(manifest.fields, "layers").items| >= 1
    ensures forall i :: 0 <= i < |found.layers| ==>
              StatedFor(lib, Get(manifest.fields, "layers").items[i], found.layers[i])
  {
    MembersAreAcceptedIff(archive);
    var media, data, payload := AcceptedRoot(lib, archive, image, found);
    var members := MembersOf(archive).value;
    manifest := ManifestOf(lib, members, media, payload);
    LayersAreStated(lib, members, Get(manifest.fields, "layers").items);
  }

  /** Which kind of media an image was read as. */
  lemma KindIsRecorded(lib: Library, members: Members, media: MediaKind, payload: Json)
    requires RootImage(lib, members, media, payload).Success?
    ensures media == if RootImage(lib, members, media, payload).value.viaIndex then IndexMedia else ManifestMedia
  {
  }

  /**
   Merkle uniqueness: if no two different contents in the two archives have the same digest, then two archives
   accepted for the same image, with a root of the same kind, hold the same image: the same config bytes, the
   same number of layers, the same bytes in every layer, and the same digests checked on the way.
   */
  lemma AcceptedArchivesAgree(lib: Library, a: seq<Member>, b: seq<Member>, image: string, x: Image, y: Image)
    requires NoCollision(lib, a, b)
    requires Accepts(lib, a, image, x) && Accepts(lib, b, image, y)
    requires x.viaIndex == y.viaIndex
    ensures x == y
  {
    var mediaA, dataA, payloadA := AcceptedRoot(lib, a, image, x);
    var mediaB, dataB, payloadB := AcceptedRoot(lib, b, image, y);
    EntriesDoNotCollide(lib, a, b);
    assert dataA == dataB;
    KindIsRecorded(lib, MembersOf(a).value, mediaA, payloadA);
    KindIsRecorded(lib, MembersOf(b).value, mediaB, payloadB);
    SamePayloadSameImage(lib, MembersOf(a).value, MembersOf(b).value, mediaA, payloadA);
  }

  /** What a root must be to be read as this kind. */
  lemma KindDemands(lib: Library, members: Members, media: MediaKind, payload: Json)
    requires RootImage(lib, members, media, payload).Success?
    ensures media.IndexMedia? ==> PlatformDescriptor(payload).Success? && HasSchemaTwo(payload)
    ensures media.ManifestMedia? ==> HasSchemaTwo(payload)
    ensures media.ManifestMedia? ==> Get(payload.fields, "layers").List? && Get(payload.fields, "layers").items != []
  {
  }

  /**
   The kind of the root is the one thing the pinned digest does not fix, since the index that states it is not
   hashed. Archives accepted under different kinds share a root payload that is at once an image index with
   one child for the platform and an image manifest with layers.
   */
  lemma DifferentKindsNeedDoubleRoot(lib: Library, a: seq<Member>, b: seq<Member>, image: string, x: Image, y: Image)
    requires NoCollision(lib, a, b)
    requires Accepts(lib, a, image, x) && Accepts(lib, b, image, y)
    requires x.viaIndex != y.viaIndex
    ensures RootPayload(lib, a, image).Some? && RootPayload(lib, b, image) == RootPayload(lib, a, image)
    ensures ReadsAsBoth(RootPayload(lib, a, image).value)
  {
    var mediaA, dataA, payloadA := AcceptedRoot(lib, a, image, x);
    var mediaB, dataB, payloadB := AcceptedRoot(lib, b, image, y);
    EntriesDoNotCollide(lib, a, b);
    assert dataA == dataB;
    KindIsRecorded(lib, MembersOf(a).value, mediaA, payloadA);
    KindIsRecorded(lib, MembersOf(b).value, mediaB, payloadB);
    KindDemands(lib, MembersOf(a).value, mediaA, payloadA);
    KindDemands(lib, MembersOf(b).value, mediaB, payloadB);
  }

  // ---- Tampering ----

  /** The entry that holds the blob with this digest does have it. */
  ghost predicate Holds(lib: Library, members: Members, hex: string) {
    BlobName(hex) in members && lib.hash(members[BlobName(hex)].data) == hex
  }

  lemma BlobHolds(lib: Library, members: Members, d: Json)
    requires Blob(lib, members, d).Success?
    ensures forall hex :: hex in DigestOf(d) ==> Holds(lib, members, hex)
  {
  }

  lemma {:induction false} LayersHold(lib: Library, members: Members, layers: seq<Json>)
    requires LayerBlobs(lib, members, layers).Success?
    ensures forall hex :: hex in LayerDigests(layers) ==> Holds(lib, members, hex)
  {
    if layers != [] {
      LayersHold(lib, members, layers[..|layers| - 1]);
      BlobHolds(lib, members, layers[|layers| - 1]);
    }
  }

  lemma ManifestHolds(lib: Library, members: Members, manifest: Json)
    requires ManifestImage(lib, members, manifest).Success?
    ensures forall hex :: hex in ManifestImage(lib, members, manifest).value.reached ==> Holds(lib, members, hex)
  {
    BlobHolds(lib, members, Get(manifest.fields, "config"));
    LayersHold(lib, members, Get(manifest.fields, "layers").items);
  }

  /** Every digest an accepted archive was checked for is the digest of the blob stored under it. */
  lemma ReachedBlobsHold(lib: Library, archive: seq<Member>, image: string, found: Image)
    requires Accepts(lib, archive, image, found)
    ensures MembersOf(archive).Success?
    ensures forall hex :: hex in found.reached ==> Holds(lib, MembersOf(archive).value, hex)
  {
    var members := MembersOf(archive).value;
    var root := RootDescriptor(lib, members, ImageDigest(image).value).value;
    var payload := lib.parse(Blob(lib, members, root).value).value;
    RootHasPinnedDigest(lib, members, ImageDigest(image).value);
    BlobHolds(lib, members, root);
    if MediaKindOf(Get(root.fields, "mediaType")).IndexMedia? {
      var child := PlatformDescriptor(payload).value;
      BlobHolds(lib, members, child);
      ManifestHolds(lib, members, lib.parse(Blob(lib, members, child).value).value);
    } else {
      ManifestHolds(lib, members, payload);
    }
  }

  /** Both archives hold the blob with this digest, with the same bytes. */
  ghost predicate SharesBlob(a: seq<Member>, b: seq<Member>, hex: string) {
    && MembersOf(a).Success? && MembersOf(b).Success?
    && BlobName(hex) in MembersOf(a).value && BlobName(hex) in MembersOf(b).value
    && MembersOf(a).value[BlobName(hex)].data == MembersOf(b).value[BlobName(hex)].data
  }

  /** Two archives accepted for the same image with the same kind of root share every blob that was checked. */
  lemma AcceptedArchivesShareBlobs(lib: Library, a: seq<Member>, b: seq<Member>, image: string, x: Image, y: Image)
    requires NoCollision(lib, a, b)
    requires Accepts(lib, a, image, x) && Accepts(lib, b, image, y)
    requires x.viaIndex == y.viaIndex
    ensures forall hex :: hex in x.reached ==> SharesBlob(a, b, hex)
  {
    AcceptedArchivesAgree(lib, a, b, image, x, y);
    ReachedBlobsHold(lib, a, image, x);
    ReachedBlobsHold(lib, b, image, y);
    EntriesDoNotCollide(lib, a, b);
  }

  /**
   Tampering forces rejection: an archive in which a blob reachable in an accepted archive has other bytes, or
   is missing, is not accepted for that image at all, unless the accepted root payload reads both as an index
   and as a manifest; even then it is not accepted with a root of the same kind.
   */
  lemma TamperedBlobIsRejected(lib: Library, a: seq<Member>, b: seq<Member>, image: string, x: Image, hex: string)
    requires NoCollision(lib, a, b)
    requires Accepts(lib, a, image, x) && hex in x.reached
    requires !SharesBlob(a, b, hex)
    ensures RootPayload(lib, a, image).Some?
    ensures !ReadsAsBoth(RootPayload(lib, a, image).value) ==> forall y :: !Accepts(lib, b, image, y)
    ensures forall y :: Accepts(lib, b, image, y) ==> y.viaIndex != x.viaIndex
  {
    var media, data, payload := AcceptedRoot(lib, a, image, x);
    forall y | Accepts(lib, b, image, y)
      ensures y.viaIndex != x.viaIndex && ReadsAsBoth(payload)
    {
      if y.viaIndex == x.viaIndex {
        AcceptedArchivesShareBlobs(lib, a, b, image, x, y);
      } else {
        DifferentKindsNeedDoubleRoot(lib, a, b, image, x, y);
      }
    }
  }
}
