/** Exactly which archives are accepted, told by what is stored in them. */
module ArchiveAcceptance {
  import opened Wrappers
  import opened PyText
  import opened Filters
  import opened Json
  import opened ByteStrings
  import opened OciArchive

  // ---- What an acceptable archive holds ----

  ghost predicate IsSafeName(name: string) {
    !StartsWith(name, "/") && forall i :: 0 <= i < |SplitOn(name, '/')| ==> SplitOn(name, '/')[i] != ".."
  }

  /** All entries are files or directories with safe names, and no name occurs twice. */
  ghost predicate EntriesAreSafe(archive: seq<Member>) {
    && (forall i :: 0 <= i < |archive| ==> IsSafeName(archive[i].name) && archive[i].kind in {RegularFile, Directory})
    && (forall i, j :: 0 <= i < j < |archive| ==> archive[i].name != archive[j].name)
  }

  /** A regular file of the archive. */
  ghost predicate Stored(archive: seq<Member>, name: string, data: Bytes) {
    exists i :: 0 <= i < |archive| && archive[i] == Member(name, RegularFile, data)
  }

  /** A descriptor of a stored blob: it states the size and digest of the file that its digest names. */
  ghost predicate Describes(lib: Library, archive: seq<Member>, descriptor: Json, data: Bytes) {
    && descriptor.Obj?
    && "size" in descriptor.fields && descriptor.fields["size"] == Int(|data|)
    && "digest" in descriptor.fields && descriptor.fields["digest"] == Str("sha256:" + lib.hash(data))
    && |lib.hash(data)| == 64 && (forall i :: 0 <= i < 64 ==> lib.hash(data)[i] in "0123456789abcdef")
    && Stored(archive, "blobs/sha256/" + lib.hash(data), data)
  }

  ghost predicate IsVersionTwo(document: Json) {
    && document.Obj? && "schemaVersion" in document.fields
    && (document.fields["schemaVersion"] == Int(2) || document.fields["schemaVersion"] == Float(2.0))
  }

  ghost predicate ForAmd64Linux(fields: map<string, Json>) {
    && "os" in fields && fields["os"] == Str("linux")
    && "architecture" in fields && fields["architecture"] == Str("amd64")
  }

  /** The entry of an image index for the one supported platform. */
  ghost predicate IsAmd64LinuxChild(descriptor: Json) {
    && descriptor.Obj?
    && "platform" in descriptor.fields && descriptor.fields["platform"].Obj?
    && ForAmd64Linux(descriptor.fields["platform"].fields)
  }

  ghost predicate IsPinnedRoot(descriptor: Json, digest: string) {
    descriptor.Obj? && "digest" in descriptor.fields && descriptor.fields["digest"] == Str("sha256:" + digest)
  }

  /** A document of schema version 2 that lists descriptors. */
  ghost predicate Lists(document: Json, items: seq<Json>) {
    && IsVersionTwo(document)
    && "manifests" in document.fields && document.fields["manifests"] == List(items)
  }

  ghost predicate AllDescribed(lib: Library, archive: seq<Member>, descriptors: seq<Json>, blobs: seq<Bytes>) {
    |descriptors| == |blobs| && forall i :: 0 <= i < |blobs| ==> Describes(lib, archive, descriptors[i], blobs[i])
  }

  /** A manifest whose config and layers are all stored, for the platform, with at least one layer. */
  ghost predicate IsRunnable(lib: Library, archive: seq<Member>, manifest: Json, config: Bytes, layers: seq<Bytes>) {
    && IsVersionTwo(manifest)
    && "config" in manifest.fields && Describes(lib, archive, manifest.fields["config"], config)
    && lib.parse(config).Some? && lib.parse(config).value.Obj? && ForAmd64Linux(lib.parse(config).value.fields)
    && "layers" in manifest.fields && manifest.fields["layers"].List?
    && |layers| >= 1 && AllDescribed(lib, archive, manifest.fields["layers"].items, layers)
  }

  /** A way through the archive: `at` and `childAt` are the places of the root and of the platform's child. */
  datatype Walk = Walk(
    digest: string,
    index: Json,
    roots: seq<Json>,
    at: nat,
    rootData: Bytes,
    children: seq<Json>,
    childAt: nat,
    childData: Bytes,
    manifest: Json,
    config: Bytes,
    layers: seq<Bytes>)

  /** The index file lists exactly one descriptor with the pinned digest, and its blob is stored. */
  ghost predicate ReachesRoot(lib: Library, archive: seq<Member>, w: Walk) {
    && (exists data :: Stored(archive, "index.json", data) && lib.parse(data) == Some(w.index))
    && Lists(w.index, w.roots)
    && w.at < |w.roots| && IsPinnedRoot(w.roots[w.at], w.digest)
    && (forall i :: 0 <= i < |w.roots| && i != w.at ==> !IsPinnedRoot(w.roots[i], w.digest))
    && Describes(lib, archive, w.roots[w.at], w.rootData)
    && lib.parse(w.rootData).Some?
  }

  ghost predicate HasMediaType(descriptor: Json, mediaTypes: set<string>) {
    && descriptor.Obj? && "mediaType" in descriptor.fields && descriptor.fields["mediaType"].Str?
    && descriptor.fields["mediaType"].text in mediaTypes
  }

  /** The root is the manifest itself. */
  ghost predicate RootIsManifest(lib: Library, w: Walk)
    requires w.at < |w.roots|
  {
    && HasMediaType(w.roots[w.at], {"application/vnd.oci.image.manifest.v1+json",
                                    "application/vnd.docker.distribution.manifest.v2+json"})
    && lib.parse(w.rootData) == Some(w.manifest)
  }

  /** The root is an index with exactly one child for the platform, whatever else it lists. */
  ghost predicate RootIsIndex(lib: Library, archive: seq<Member>, w: Walk)
    requires w.at < |w.roots|
  {
    && HasMediaType(w.roots[w.at], {"application/vnd.oci.image.index.v1+json",
                                    "application/vnd.docker.distribution.manifest.list.v2+json"})
    && lib.parse(w.rootData).Some? && Lists(lib.parse(w.rootData).value, w.children)
    && w.childAt < |w.children| && IsAmd64LinuxChild(w.children[w.childAt])
    && (forall i :: 0 <= i < |w.children| && i != w.childAt ==> !IsAmd64LinuxChild(w.children[i]))
    && Describes(lib, archive, w.children[w.childAt], w.childData)
    && lib.parse(w.childData) == Some(w.manifest)
  }

  /** The image reference ends in the digest, after its last colon. */
  ghost predicate Names(image: string, digest: string) {
    ':' !in digest && |image| > |digest| && image[|image| - |digest| - 1] == ':'
    && image[|image| - |digest|..] == digest
  }

  ghost predicate IsWalk(lib: Library, archive: seq<Member>, image: string, w: Walk) {
    && EntriesAreSafe(archive)
    && Names(image, w.digest)
    && ReachesRoot(lib, archive, w)
    && (RootIsManifest(lib, w) || RootIsIndex(lib, archive, w))
    && IsRunnable(lib, archive, w.manifest, w.config, w.layers)
  }

  // ---- The pieces of the verification, told by what is stored ----

  lemma SafeEntriesAreMembers(archive: seq<Member>)
    ensures MembersOf(archive).Success? <==> EntriesAreSafe(archive)
  {
    MembersAreAcceptedIff(archive);
    assert forall i :: 0 <= i < |archive| ==>
      (IsAcceptedEntry(archive[i]) <==> IsSafeName(archive[i].name) && archive[i].kind in {RegularFile, Directory});
  }

  lemma StoredIsMember(archive: seq<Member>, name: string, data: Bytes)
    requires MembersOf(archive).Success?
    ensures Stored(archive, name, data) <==>
              var members := MembersOf(archive).value;
              name in members && members[name].kind.RegularFile? && members[name].data == data
  {
    MembersAreTheEntries(archive);
  }

  lemma HexDigits(c: char)
    ensures IsHexDigit(c) <==> c in "0123456789abcdef"
  {
  }

  lemma DigestText(text: string, hex: string)
    requires text == "sha256:" + hex
    ensures text[7..] == hex
    ensures IsDigest(text) <==> |hex| == 64 && forall i :: 0 <= i < 64 ==> hex[i] in "0123456789abcdef"
  {
    assert forall i :: 7 <= i < |text| ==> text[i] == hex[i - 7];
    forall c ensures IsHexDigit(c) <==> c in "0123456789abcdef" {
      HexDigits(c);
    }
    if IsDigest(text) {
      forall i | 0 <= i < 64 ensures hex[i] in "0123456789abcdef" {
        assert IsHexDigit(text[i + 7]);
      }
    }
  }

  lemma BlobIsDescribed(lib: Library, archive: seq<Member>, descriptor: Json, data: Bytes)
    requires MembersOf(archive).Success?
    ensures Blob(lib, MembersOf(archive).value, descriptor) == Success(data) <==>
              Describes(lib, archive, descriptor, data)
  {
    var hex := lib.hash(data);
    StoredIsMember(archive, "blobs/sha256/" + hex, data);
    DigestText("sha256:" + hex, hex);
    if Blob(lib, MembersOf(archive).value, descriptor) == Success(data) {
      var text := Get(descriptor.fields, "digest").text;
      assert text == "sha256:" + text[7..];
    }
  }

  lemma LayerBlobsPush(lib: Library, members: Members, descriptors: seq<Json>, layers: seq<Bytes>)
    requires descriptors != [] && layers != []
    ensures LayerBlobs(lib, members, descriptors) == Success(layers) <==>
              && LayerBlobs(lib, members, descriptors[..|descriptors| - 1]) == Success(layers[..|layers| - 1])
              && Blob(lib, members, descriptors[|descriptors| - 1]) == Success(layers[|layers| - 1])
  {
    var front := LayerBlobs(lib, members, descriptors[..|descriptors| - 1]);
    var last := Blob(lib, members, descriptors[|descriptors| - 1]);
    if front.Success? && last.Success? {
      assert (front.value + [last.value])[..|front.value|] == front.value;
      assert layers == layers[..|layers| - 1] + [layers[|layers| - 1]];
    }
  }

  lemma DescribedPush(lib: Library, archive: seq<Member>, descriptors: seq<Json>, layers: seq<Bytes>)
    requires |descriptors| == |layers| > 0
    ensures AllDescribed(lib, archive, descriptors, layers) <==>
              && AllDescribed(lib, archive, descriptors[..|descriptors| - 1], layers[..|layers| - 1])
              && Describes(lib, archive, descriptors[|descriptors| - 1], layers[|layers| - 1])
  {
    var front, blobs := descriptors[..|descriptors| - 1], layers[..|layers| - 1];
    assert forall i :: 0 <= i < |blobs| ==> front[i] == descriptors[i] && blobs[i] == layers[i];
  }

  lemma {:induction false} LayersAreDescribed(lib: Library, archive: seq<Member>,
                                              descriptors: seq<Json>, layers: seq<Bytes>)
    requires MembersOf(archive).Success?
    ensures LayerBlobs(lib, MembersOf(archive).value, descriptors) == Success(layers) <==>
              AllDescribed(lib, archive, descriptors, layers)
  {
    if descriptors != [] && layers != [] {
      var front, blobs := descriptors[..|descriptors| - 1], layers[..|layers| - 1];
      LayersAreDescribed(lib, archive, front, blobs);
      BlobIsDescribed(lib, archive, descriptors[|descriptors| - 1], layers[|layers| - 1]);
      LayerBlobsPush(lib, MembersOf(archive).value, descriptors, layers);
      if |descriptors| == |layers| {
        DescribedPush(lib, archive, descriptors, layers);
      }
    }
  }

  /** The image a manifest leads to, with the digests that were checked on the way. */
  ghost predicate Finds(found: Result<Image, Rejection>, config: Bytes, layers: seq<Bytes>) {
    found.Success? && found.value.config == config && found.value.layers == layers
  }

  lemma ManifestIsRunnable(lib: Library, archive: seq<Member>, manifest: Json, config: Bytes, layers: seq<Bytes>)
    requires MembersOf(archive).Success?
    ensures Finds(ManifestImage(lib, MembersOf(archive).value, manifest), config, layers) <==>
              IsRunnable(lib, archive, manifest, config, layers)
  {
    var members := MembersOf(archive).value;
    if manifest.Obj? {
      BlobIsDescribed(lib, archive, Get(manifest.fields, "config"), config);
      var listed := Get(manifest.fields, "layers");
      if listed.List? {
        LayersAreDescribed(lib, archive, listed.items, layers);
      }
    }
  }

  // ---- The walk ----

  lemma PinnedIsHeld(descriptors: seq<Json>, digest: string, i: nat)
    ensures OnlyAt(descriptors, Pinned("sha256:" + digest).Holds, i) <==>
              && i < |descriptors| && IsPinnedRoot(descriptors[i], digest)
              && forall j :: 0 <= j < |descriptors| && j != i ==> !IsPinnedRoot(descriptors[j], digest)
  {
    var f := Pinned("sha256:" + digest).Holds;
    assert forall j :: 0 <= j < |descriptors| ==> (f(descriptors[j]) <==> IsPinnedRoot(descriptors[j], digest));
  }

  lemma ChildIsHeld(descriptors: seq<Json>, i: nat)
    ensures OnlyAt(descriptors, ForPlatform.Holds, i) <==>
              && i < |descriptors| && IsAmd64LinuxChild(descriptors[i])
              && forall j :: 0 <= j < |descriptors| && j != i ==> !IsAmd64LinuxChild(descriptors[j])
  {
    var f := ForPlatform.Holds;
    assert forall j :: 0 <= j < |descriptors| ==> (f(descriptors[j]) <==> IsAmd64LinuxChild(descriptors[j]));
  }

  /** The child that is walked is the only entry of the index for linux and amd64, whatever else it lists. */
  lemma TheChildIsTheOnlyOne(index: Json, items: seq<Json>, i: nat)
    requires Lists(index, items) && i < |items| && IsAmd64LinuxChild(items[i])
    requires forall j :: 0 <= j < |items| && j != i ==> !IsAmd64LinuxChild(items[j])
    ensures PlatformDescriptor(index) == Success(items[i])
  {
    ChildIsHeld(items, i);
    FilterOne(items, ForPlatform.Holds, i);
  }

  lemma TheChildIsFound(index: Json) returns (items: seq<Json>, i: nat)
    requires PlatformDescriptor(index).Success?
    ensures Lists(index, items) && i < |items| && PlatformDescriptor(index) == Success(items[i])
    ensures IsAmd64LinuxChild(items[i])
    ensures forall j :: 0 <= j < |items| && j != i ==> !IsAmd64LinuxChild(items[j])
  {
    items := Get(index.fields, "manifests").items;
    i := FilterOneAt(items, ForPlatform.Holds);
    ChildIsHeld(items, i);
  }

  lemma TheRootIsTheOnlyOne(lib: Library, archive: seq<Member>, w: Walk)
    requires MembersOf(archive).Success? && ReachesRoot(lib, archive, w)
    ensures RootDescriptor(lib, MembersOf(archive).value, w.digest) == Success(w.roots[w.at])
    ensures Blob(lib, MembersOf(archive).value, w.roots[w.at]) == Success(w.rootData)
  {
    var data :| Stored(archive, "index.json", data) && lib.parse(data) == Some(w.index);
    StoredIsMember(archive, "index.json", data);
    PinnedIsHeld(w.roots, w.digest, w.at);
    FilterOne(w.roots, Pinned("sha256:" + w.digest).Holds, w.at);
    BlobIsDescribed(lib, archive, w.roots[w.at], w.rootData);
  }

  lemma TheRootIsFound(lib: Library, archive: seq<Member>, digest: string)
    returns (index: Json, roots: seq<Json>, at: nat, data: Bytes)
    requires MembersOf(archive).Success? && RootDescriptor(lib, MembersOf(archive).value, digest).Success?
    ensures Stored(archive, "index.json", data) && lib.parse(data) == Some(index) && Lists(index, roots)
    ensures at < |roots| && RootDescriptor(lib, MembersOf(archive).value, digest) == Success(roots[at])
    ensures IsPinnedRoot(roots[at], digest)
    ensures forall i :: 0 <= i < |roots| && i != at ==> !IsPinnedRoot(roots[i], digest)
  {
    data := MembersOf(archive).value["index.json"].data;
    StoredIsMember(archive, "index.json", data);
    index := lib.parse(data).value;
    roots := Get(index.fields, "manifests").items;
    at := FilterOneAt(roots, Pinned("sha256:" + digest).Holds);
    PinnedIsHeld(roots, digest, at);
  }

  // ---- The reference ----

  lemma {:induction false} LastPiece(front: string, last: string, separator: char)
    requires separator !in last
    ensures var pieces := SplitOn(front + [separator] + last, separator);
            |pieces| >= 2 && pieces[|pieces| - 1] == last
  {
    var s := front + [separator] + last;
    if front == "" {
      SplitOnFirst("", last, separator);
      assert SplitOn(last, separator) == [last];
    } else {
      assert s[1..] == front[1..] + [separator] + last;
      LastPiece(front[1..], last, separator);
    }
  }

  lemma {:induction false} LastIndex(s: string, c: char) returns (i: nat)
    requires c in s
    ensures i < |s| && s[i] == c && c !in s[i + 1..]
  {
    i := |s| - 1;
    if s[i] != c {
      FrontAndLast(s);
      i := LastIndex(s[..|s| - 1], c);
      assert s[i + 1..] == s[..|s| - 1][i + 1..] + [s[|s| - 1]];
    }
  }

  lemma DigestAfterColon(image: string, digest: string)
    ensures ImageDigest(image) == Some(digest) <==> Names(image, digest)
  {
    if Names(image, digest) {
      var i := |image| - |digest| - 1;
      assert image == image[..i] + [':'] + digest;
      assert image[i] in image;
      LastPiece(image[..i], digest, ':');
    } else if ImageDigest(image) == Some(digest) {
      var i := LastIndex(image, ':');
      assert image == image[..i] + [':'] + image[i + 1..];
      LastPiece(image[..i], image[i + 1..], ':');
    }
  }

  // ---- Acceptance ----

  lemma ReachedRoot(lib: Library, archive: seq<Member>, image: string) returns (w: Walk)
    requires MembersOf(archive).Success? && ImageDigest(image).Some?
    requires var root := RootDescriptor(lib, MembersOf(archive).value, ImageDigest(image).value);
             && root.Success? && Blob(lib, MembersOf(archive).value, root.value).Success?
             && lib.parse(Blob(lib, MembersOf(archive).value, root.value).value).Some?
    ensures EntriesAreSafe(archive) && Names(image, w.digest) && ReachesRoot(lib, archive, w)
    ensures RootDescriptor(lib, MembersOf(archive).value, ImageDigest(image).value) == Success(w.roots[w.at])
  {
    var members, digest := MembersOf(archive).value, ImageDigest(image).value;
    SafeEntriesAreMembers(archive);
    DigestAfterColon(image, digest);
    var index, roots, at, _ := TheRootIsFound(lib, archive, digest);
    var rootData := Blob(lib, members, roots[at]).value;
    BlobIsDescribed(lib, archive, roots[at], rootData);
    w := Walk(digest, index, roots, at, rootData, [], 0, [], Null, [], []);
  }

  lemma RootIsReached(lib: Library, archive: seq<Member>, image: string, w: Walk)
    requires EntriesAreSafe(archive) && Names(image, w.digest) && ReachesRoot(lib, archive, w)
    ensures MembersOf(archive).Success? && ImageDigest(image) == Some(w.digest)
    ensures RootDescriptor(lib, MembersOf(archive).value, w.digest) == Success(w.roots[w.at])
    ensures Blob(lib, MembersOf(archive).value, w.roots[w.at]) == Success(w.rootData)
  {
    SafeEntriesAreMembers(archive);
    DigestAfterColon(image, w.digest);
    TheRootIsTheOnlyOne(lib, archive, w);
  }

  lemma MediaKinds(descriptor: Json)
    requires descriptor.Obj?
    ensures MediaKindOf(Get(descriptor.fields, "mediaType")).ManifestMedia? <==>
              HasMediaType(descriptor, {"application/vnd.oci.image.manifest.v1+json",
                                        "application/vnd.docker.distribution.manifest.v2+json"})
    ensures MediaKindOf(Get(descriptor.fields, "mediaType")).IndexMedia? <==>
              HasMediaType(descriptor, {"application/vnd.oci.image.index.v1+json",
                                        "application/vnd.docker.distribution.manifest.list.v2+json"})
  {
  }

  lemma WalkIsAccepted(lib: Library, archive: seq<Member>, image: string, w: Walk)
    requires IsWalk(lib, archive, image, w)
    ensures Finds(Verified(lib, archive, image, "linux/amd64"), w.config, w.layers)
  {
    RootIsReached(lib, archive, image, w);
    MediaKinds(w.roots[w.at]);
    ManifestIsRunnable(lib, archive, w.manifest, w.config, w.layers);
    if RootIsIndex(lib, archive, w) {
      TheChildIsTheOnlyOne(lib.parse(w.rootData).value, w.children, w.childAt);
      BlobIsDescribed(lib, archive, w.children[w.childAt], w.childData);
    }
  }

  /** The manifest that a root which is read leads to. */
  lemma ReachedManifest(lib: Library, archive: seq<Member>, w: Walk, media: MediaKind) returns (next: Walk)
    requires MembersOf(archive).Success? && ReachesRoot(lib, archive, w)
    requires media == MediaKindOf(Get(w.roots[w.at].fields, "mediaType"))
    requires RootImage(lib, MembersOf(archive).value, media, lib.parse(w.rootData).value).Success?
    ensures ReachesRoot(lib, archive, next) && next.digest == w.digest
    ensures RootIsManifest(lib, next) || RootIsIndex(lib, archive, next)
    ensures var found := RootImage(lib, MembersOf(archive).value, media, lib.parse(w.rootData).value).value;
            Finds(ManifestImage(lib, MembersOf(archive).value, next.manifest), found.config, found.layers)
  {
    var members, payload := MembersOf(archive).value, lib.parse(w.rootData).value;
    MediaKinds(w.roots[w.at]);
    next := w.(manifest := payload);
    if media.IndexMedia? {
      var children, childAt := TheChildIsFound(payload);
      var childData := Blob(lib, members, children[childAt]).value;
      BlobIsDescribed(lib, archive, children[childAt], childData);
      next := w.(children := children, childAt := childAt, childData := childData,
                 manifest := lib.parse(childData).value);
    }
  }

  lemma AcceptedIsWalk(lib: Library, archive: seq<Member>, image: string) returns (w: Walk)
    requires Verified(lib, archive, image, "linux/amd64").Success?
    ensures IsWalk(lib, archive, image, w)
    ensures Finds(Verified(lib, archive, image, "linux/amd64"), w.config, w.layers)
  {
    var found := Verified(lib, archive, image, "linux/amd64").value;
    var reached := ReachedRoot(lib, archive, image);
    RootIsReached(lib, archive, image, reached);
    var media := MediaKindOf(Get(reached.roots[reached.at].fields, "mediaType"));
    var next := ReachedManifest(lib, archive, reached, media);
    w := next.(config := found.config, layers := found.layers);
    ManifestIsRunnable(lib, archive, w.manifest, w.config, w.layers);
  }

  /**
   Acceptance, exactly: an archive is accepted if and only if its entries are safe and distinct, its index lists
   exactly one root with the pinned digest, of a supported media type, an index root has exactly one child for
   linux and amd64, the config is for that platform, there is at least one layer, and every blob on the way is
   stored with the size and digest its descriptor states. What it holds is then that config and those layers.
   */
  lemma AcceptedIff(lib: Library, archive: seq<Member>, image: string, platform: string)
    ensures Verified(lib, archive, image, platform).Success? <==>
              platform == "linux/amd64" && exists w :: IsWalk(lib, archive, image, w)
    ensures platform == "linux/amd64" ==>
              forall w :: IsWalk(lib, archive, image, w) ==>
                Finds(Verified(lib, archive, image, platform), w.config, w.layers)
  {
    forall w | IsWalk(lib, archive, image, w)
      ensures Finds(Verified(lib, archive, image, "linux/amd64"), w.config, w.layers)
    {
      WalkIsAccepted(lib, archive, image, w);
    }
    if Verified(lib, archive, image, platform).Success? {
      var w := AcceptedIsWalk(lib, archive, image);
    }
  }

  // ---- The digests that were checked ----

  ghost function Hashes(lib: Library, blobs: seq<Bytes>): seq<string> {
    if blobs == [] then [] else Hashes(lib, blobs[..|blobs| - 1]) + [lib.hash(blobs[|blobs| - 1])]
  }

  lemma DescribedDigest(lib: Library, archive: seq<Member>, descriptor: Json, data: Bytes)
    requires Describes(lib, archive, descriptor, data)
    ensures DigestOf(descriptor) == [lib.hash(data)]
  {
    DigestText("sha256:" + lib.hash(data), lib.hash(data));
  }

  lemma {:induction false} DescribedDigests(lib: Library, archive: seq<Member>, descriptors: seq<Json>,
                                            blobs: seq<Bytes>)
    requires AllDescribed(lib, archive, descriptors, blobs)
    ensures LayerDigests(descriptors) == Hashes(lib, blobs)
  {
    if descriptors != [] {
      DescribedPush(lib, archive, descriptors, blobs);
      DescribedDigests(lib, archive, descriptors[..|descriptors| - 1], blobs[..|blobs| - 1]);
      DescribedDigest(lib, archive, descriptors[|descriptors| - 1], blobs[|blobs| - 1]);
    }
  }

  lemma ManifestDigests(lib: Library, archive: seq<Member>, manifest: Json, config: Bytes, layers: seq<Bytes>)
    requires MembersOf(archive).Success? && IsRunnable(lib, archive, manifest, config, layers)
    ensures var found := ManifestImage(lib, MembersOf(archive).value, manifest);
            found.Success? && found.value.reached == [lib.hash(config)] + Hashes(lib, layers)
  {
    ManifestIsRunnable(lib, archive, manifest, config, layers);
    DescribedDigest(lib, archive, manifest.fields["config"], config);
    DescribedDigests(lib, archive, manifest.fields["layers"].items, layers);
  }

  lemma PinnedDigest(lib: Library, archive: seq<Member>, w: Walk)
    requires ReachesRoot(lib, archive, w)
    ensures lib.hash(w.rootData) == w.digest
  {
    DropFront("sha256:", lib.hash(w.rootData));
    DropFront("sha256:", w.digest);
  }

  lemma NothingBefore<T>(s: seq<T>)
    ensures [] + s == s
  {
  }

  /** The digests after the root's. */
  ghost function DigestsBelow(lib: Library, archive: seq<Member>, w: Walk): seq<string>
    requires w.at < |w.roots|
  {
    (if RootIsIndex(lib, archive, w) then [lib.hash(w.childData)] else [])
    + ([lib.hash(w.config)] + Hashes(lib, w.layers))
  }

  lemma ManifestRootDigests(lib: Library, archive: seq<Member>, payload: Json, config: Bytes, layers: seq<Bytes>)
    requires MembersOf(archive).Success? && IsRunnable(lib, archive, payload, config, layers)
    ensures var found := RootImage(lib, MembersOf(archive).value, ManifestMedia, payload);
            && found.Success? && !found.value.viaIndex
            && found.value.reached == [] + ([lib.hash(config)] + Hashes(lib, layers))
  {
    ManifestDigests(lib, archive, payload, config, layers);
    NothingBefore([lib.hash(config)] + Hashes(lib, layers));
  }

  lemma IndexRootDigests(lib: Library, archive: seq<Member>, w: Walk)
    requires MembersOf(archive).Success? && w.at < |w.roots| && RootIsIndex(lib, archive, w)
    requires IsRunnable(lib, archive, w.manifest, w.config, w.layers)
    ensures var found := RootImage(lib, MembersOf(archive).value, IndexMedia, lib.parse(w.rootData).value);
            && found.Success? && found.value.viaIndex
            && found.value.reached == [lib.hash(w.childData)] + ([lib.hash(w.config)] + Hashes(lib, w.layers))
  {
    ManifestDigests(lib, archive, w.manifest, w.config, w.layers);
    TheChildIsTheOnlyOne(lib.parse(w.rootData).value, w.children, w.childAt);
    BlobIsDescribed(lib, archive, w.children[w.childAt], w.childData);
    DescribedDigest(lib, archive, w.children[w.childAt], w.childData);
  }

  lemma RootDigests(lib: Library, archive: seq<Member>, w: Walk, media: MediaKind)
    requires MembersOf(archive).Success? && ReachesRoot(lib, archive, w)
    requires media == MediaKindOf(Get(w.roots[w.at].fields, "mediaType"))
    requires RootIsManifest(lib, w) || RootIsIndex(lib, archive, w)
    requires IsRunnable(lib, archive, w.manifest, w.config, w.layers)
    ensures var found := RootImage(lib, MembersOf(archive).value, media, lib.parse(w.rootData).value);
            && found.Success? && found.value.viaIndex == RootIsIndex(lib, archive, w)
            && found.value.reached == DigestsBelow(lib, archive, w)
  {
    MediaKinds(w.roots[w.at]);
    if RootIsIndex(lib, archive, w) {
      IndexRootDigests(lib, archive, w);
    } else {
      ManifestRootDigests(lib, archive, w.manifest, w.config, w.layers);
    }
  }

  /** An accepted archive was checked for every digest on its way: root, child, config and all layers, in order. */
  lemma EveryDigestIsReached(lib: Library, archive: seq<Member>, image: string, w: Walk)
    requires IsWalk(lib, archive, image, w)
    ensures var found := Verified(lib, archive, image, "linux/amd64");
            && found.Success?
            && found.value.viaIndex == RootIsIndex(lib, archive, w)
            && found.value.reached == [w.digest] + DigestsBelow(lib, archive, w)
  {
    RootIsReached(lib, archive, image, w);
    DescribedDigest(lib, archive, w.roots[w.at], w.rootData);
    PinnedDigest(lib, archive, w);
    RootDigests(lib, archive, w, MediaKindOf(Get(w.roots[w.at].fields, "mediaType")));
  }

  /** The root is reached, but its media type is a list or an object, which a set cannot be asked for. */
  ghost predicate HasUnhashableType(lib: Library, archive: seq<Member>, image: string, w: Walk) {
    && EntriesAreSafe(archive) && Names(image, w.digest) && ReachesRoot(lib, archive, w)
    && "mediaType" in w.roots[w.at].fields
    && (w.roots[w.at].fields["mediaType"].List? || w.roots[w.at].fields["mediaType"].Obj?)
  }

  lemma {:induction false} MembersFailWithManifestError(archive: seq<Member>)
    ensures MembersOf(archive).Failure? ==> MembersOf(archive).error == ManifestError
  {
    if archive != [] {
      MembersFailWithManifestError(archive[..|archive| - 1]);
    }
  }

  lemma {:induction false} LayersFailWithManifestError(lib: Library, members: Members, layers: seq<Json>)
    ensures LayerBlobs(lib, members, layers).Failure? ==> LayerBlobs(lib, members, layers).error == ManifestError
  {
    if layers != [] {
      LayersFailWithManifestError(lib, members, layers[..|layers| - 1]);
    }
  }

  lemma ManifestFailsWithManifestError(lib: Library, members: Members, manifest: Json)
    ensures ManifestImage(lib, members, manifest).Failure? ==>
              ManifestImage(lib, members, manifest).error == ManifestError
  {
    if manifest.Obj? && Get(manifest.fields, "layers").List? {
      LayersFailWithManifestError(lib, members, Get(manifest.fields, "layers").items);
    }
  }

  /** Only the media type of a root that was reached raises another error. */
  lemma RootFails(lib: Library, members: Members, media: MediaKind, payload: Json)
    ensures RootImage(lib, members, media, payload).Failure? ==>
              RootImage(lib, members, media, payload).error
                == if media.UnhashableMedia? then TypeError else ManifestError
  {
    ManifestFailsWithManifestError(lib, members, payload);
    if media.IndexMedia? && PlatformDescriptor(payload).Success? {
      var blob := Blob(lib, members, PlatformDescriptor(payload).value);
      if blob.Success? && lib.parse(blob.value).Some? {
        ManifestFailsWithManifestError(lib, members, lib.parse(blob.value).value);
      }
    }
  }

  lemma TypeErrorReachesRoot(lib: Library, archive: seq<Member>, image: string)
    requires Verified(lib, archive, image, "linux/amd64") == Failure(TypeError)
    ensures MembersOf(archive).Success? && ImageDigest(image).Some?
    ensures var root := RootDescriptor(lib, MembersOf(archive).value, ImageDigest(image).value);
            && root.Success? && Blob(lib, MembersOf(archive).value, root.value).Success?
            && lib.parse(Blob(lib, MembersOf(archive).value, root.value).value).Some?
            && root.value.Obj? && MediaKindOf(Get(root.value.fields, "mediaType")).UnhashableMedia?
  {
    MembersFailWithManifestError(archive);
    var members := MembersOf(archive).value;
    var root := RootDescriptor(lib, members, ImageDigest(image).value).value;
    var payload := lib.parse(Blob(lib, members, root).value).value;
    var media := if root.Obj? then MediaKindOf(Get(root.fields, "mediaType")) else UnsupportedMedia;
    RootFails(lib, members, media, payload);
  }

  lemma OtherFailures(lib: Library, archive: seq<Member>, image: string, platform: string)
    requires Verified(lib, archive, image, platform).Failure?
    ensures Verified(lib, archive, image, platform).error == IndexError <==>
              platform == "linux/amd64" && ':' !in image
    ensures Verified(lib, archive, image, platform).error == TypeError ==> platform == "linux/amd64"
  {
    MembersFailWithManifestError(archive);
    if platform == "linux/amd64" && ':' in image && MembersOf(archive).Success? {
      var members := MembersOf(archive).value;
      var root := RootDescriptor(lib, members, ImageDigest(image).value);
      if root.Success? && Blob(lib, members, root.value).Success? {
        var payload := lib.parse(Blob(lib, members, root.value).value);
        if payload.Some? {
          RootFails(lib, members,
                    if root.value.Obj? then MediaKindOf(Get(root.value.fields, "mediaType")) else UnsupportedMedia,
                    payload.value);
        }
      }
    }
  }

  lemma UnhashableRaises(lib: Library, archive: seq<Member>, image: string, w: Walk)
    requires HasUnhashableType(lib, archive, image, w)
    ensures Verified(lib, archive, image, "linux/amd64") == Failure(TypeError)
  {
    RootIsReached(lib, archive, image, w);
  }

  lemma TypeErrorIsUnhashable(lib: Library, archive: seq<Member>, image: string)
    requires Verified(lib, archive, image, "linux/amd64") == Failure(TypeError)
    ensures exists w :: HasUnhashableType(lib, archive, image, w)
  {
    TypeErrorReachesRoot(lib, archive, image);
    var w := ReachedRoot(lib, archive, image);
    assert HasUnhashableType(lib, archive, image, w);
  }

  /**
   Which rejection: a reference without a colon raises `IndexError`, a media type that cannot be looked up in a
   set raises `TypeError`, and anything else that is missing or wrong is a manifest error.
   */
  lemma RejectedExactly(lib: Library, archive: seq<Member>, image: string, platform: string)
    requires Verified(lib, archive, image, platform).Failure?
    ensures Verified(lib, archive, image, platform).error
         == if platform == "linux/amd64" && ':' !in image then IndexError
            else if platform == "linux/amd64" && (exists w :: HasUnhashableType(lib, archive, image, w)) then TypeError
            else ManifestError
  {
    OtherFailures(lib, archive, image, platform);
    if w :| platform == "linux/amd64" && HasUnhashableType(lib, archive, image, w) {
      UnhashableRaises(lib, archive, image, w);
    } else if Verified(lib, archive, image, platform).error.TypeError? {
      TypeErrorIsUnhashable(lib, archive, image);
    }
  }
}
