/**
 Verification of an OCI image archive: a walk from a pinned digest through an optional index to a manifest,
 its config and its layers, in which every blob is checked against the descriptor that names it.
 */
module OciArchive {
  import opened Wrappers
  import opened PyText
  import opened Filters
  import opened Json
  import opened ByteStrings

  datatype Kind = Directory | RegularFile | OtherKind

  /** One tar entry. */
  datatype Member = Member(name: string, kind: Kind, data: Bytes)

  type Members = map<string, Member>

  /** SHA-256 in lower-case hexadecimal, and UTF-8 decoding followed by `json.loads`, as arbitrary functions. */
  datatype Library = Library(hash: Bytes -> string, parse: Bytes -> Option<Json>)

  /** What rejects an archive: `TypeError` for an unhashable media type, `IndexError` for an image without a colon. */
  datatype Rejection = ManifestError | TypeError | IndexError

  const IMAGE_ARCHIVE_PLATFORM := "linux/amd64"
  const REQUIRED_OS := "linux"
  const REQUIRED_ARCHITECTURE := "amd64"
  const CHUNK := 1024 * 1024

  const OCI_INDEX_MEDIA_TYPES := {
    "application/vnd.oci.image.index.v1+json",
    "application/vnd.docker.distribution.manifest.list.v2+json"
  }
  const OCI_IMAGE_MANIFEST_MEDIA_TYPES := {
    "application/vnd.oci.image.manifest.v1+json",
    "application/vnd.docker.distribution.manifest.v2+json"
  }

  /** What an accepted archive was found to hold, and the digests of the blobs that were checked on the way. */
  datatype Image = Image(viaIndex: bool, config: Bytes, layers: seq<Bytes>, reached: seq<string>)

  // ---- Entries ----

  predicate IsSafePath(name: string) {
    !StartsWith(name, "/") && ".." !in SplitOn(name, '/')
  }

  predicate IsAcceptedEntry(member: Member) {
    IsSafePath(member.name) && !member.kind.OtherKind?
  }

  ghost predicate NamesAreDistinct(archive: seq<Member>) {
    forall i, j :: 0 <= i < j < |archive| ==> archive[i].name != archive[j].name
  }

  ghost predicate AllAccepted(archive: seq<Member>) {
    forall i :: 0 <= i < |archive| ==> IsAcceptedEntry(archive[i])
  }

  function MembersOf(archive: seq<Member>): Result<Members, Rejection> {
    if archive == [] then Success(map[])
    else
      var front :- MembersOf(archive[..|archive| - 1]);
      var member := archive[|archive| - 1];
      if !IsAcceptedEntry(member) || member.name in front then Failure(ManifestError)
      else Success(front[member.name := member])
  }

  /** Accepted entries are the map: every name leads to the entry that carries it. */
  lemma {:induction false} MembersAreTheEntries(archive: seq<Member>)
    requires MembersOf(archive).Success?
    ensures forall i :: 0 <= i < |archive| ==>
              archive[i].name in MembersOf(archive).value && MembersOf(archive).value[archive[i].name] == archive[i]
    ensures forall name :: name in MembersOf(archive).value ==>
              MembersOf(archive).value[name] in archive && MembersOf(archive).value[name].name == name
  {
    if archive != [] {
      var front, last := archive[..|archive| - 1], archive[|archive| - 1];
      MembersAreTheEntries(front);
      FrontAndLast(archive);
      assert forall i :: 0 <= i < |front| ==> archive[i] == front[i];
    }
  }

  lemma DistinctWithLast(archive: seq<Member>, front: Members)
    requires archive != [] && NamesAreDistinct(archive[..|archive| - 1])
    requires forall i :: 0 <= i < |archive| - 1 ==> archive[i].name in front
    requires forall name :: name in front ==> front[name] in archive[..|archive| - 1] && front[name].name == name
    ensures NamesAreDistinct(archive) <==> archive[|archive| - 1].name !in front
  {
    var last := archive[|archive| - 1];
    if last.name in front {
      var i :| 0 <= i < |archive| - 1 && archive[..|archive| - 1][i] == front[last.name];
      assert archive[i].name == last.name;
    } else {
      assert forall i :: 0 <= i < |archive| - 1 ==> archive[..|archive| - 1][i] == archive[i];
    }
  }

  lemma SplitOffLast(archive: seq<Member>)
    requires archive != []
    ensures NamesAreDistinct(archive) ==> NamesAreDistinct(archive[..|archive| - 1])
    ensures AllAccepted(archive) <==> AllAccepted(archive[..|archive| - 1]) && IsAcceptedEntry(archive[|archive| - 1])
  {
    var front := archive[..|archive| - 1];
    assert forall i :: 0 <= i < |front| ==> archive[i] == front[i];
  }

  /** The entries are accepted exactly when all are safe and regular, under distinct names. */
  lemma {:induction false} MembersAreAcceptedIff(archive: seq<Member>)
    ensures MembersOf(archive).Success? <==> NamesAreDistinct(archive) && AllAccepted(archive)
  {
    if archive != [] {
      var front := archive[..|archive| - 1];
      MembersAreAcceptedIff(front);
      SplitOffLast(archive);
      if MembersOf(front).Success? {
        MembersAreTheEntries(front);
        assert forall i :: 0 <= i < |front| ==> archive[i] == front[i];
        DistinctWithLast(archive, MembersOf(front).value);
      }
    }
  }

  // ---- Blobs ----

  predicate IsHexDigit(c: char) {
    '0' <= c <= '9' || 'a' <= c <= 'f'
  }

  /** `sha256:[0-9a-f]{64}` as a full match. */
  predicate IsDigest(s: string) {
    StartsWith(s, "sha256:") && |s| == 71 && forall i :: 7 <= i < |s| ==> IsHexDigit(s[i])
  }

  /** The hexadecimal digest and the size a descriptor states. */
  function DescriptorDigest(descriptor: Json): Result<(string, int), Rejection> {
    if !descriptor.Obj? then Failure(ManifestError)
    else
      var digest, size := Get(descriptor.fields, "digest"), Get(descriptor.fields, "size");
      if !digest.Str? || !IsDigest(digest.text) then Failure(ManifestError)
      else if !size.Int? || size.integer < 0 then Failure(ManifestError)
      else Success((digest.text[7..], size.integer))
  }

  function BlobName(hex: string): string {
    "blobs/sha256/" + hex
  }

  /** The blob a descriptor names, when its size and digest are the stated ones. */
  function Blob(lib: Library, members: Members, descriptor: Json): Result<Bytes, Rejection> {
    var stated :- DescriptorDigest(descriptor);
    var name := BlobName(stated.0);
    if name !in members || !members[name].kind.RegularFile? then Failure(ManifestError)
    else
      var data := members[name].data;
      if |data| == stated.1 && lib.hash(data) == stated.0 then Success(data) else Failure(ManifestError)
  }

  function Parsed(lib: Library, data: Bytes): Result<Json, Rejection> {
    match lib.parse(data)
    case None => Failure(ManifestError)
    case Some(value) => Success(value)
  }

  // ---- Manifests ----

  /** `fields.get("schemaVersion") == 2`, where Python's 2.0 equals 2. */
  predicate HasSchemaTwo(document: Json) {
    && document.Obj?
    && (Get(document.fields, "schemaVersion") == Int(2) || Get(document.fields, "schemaVersion") == Float(2.0))
  }

  predicate PlatformMatches(descriptor: Json) {
    && descriptor.Obj?
    && Get(descriptor.fields, "platform").Obj?
    && Get(Get(descriptor.fields, "platform").fields, "os") == Str(REQUIRED_OS)
    && Get(Get(descriptor.fields, "platform").fields, "architecture") == Str(REQUIRED_ARCHITECTURE)
  }

  predicate ConfigMatches(config: Json) {
    && config.Obj?
    && Get(config.fields, "os") == Str(REQUIRED_OS)
    && Get(config.fields, "architecture") == Str(REQUIRED_ARCHITECTURE)
  }

  function LayerBlobs(lib: Library, members: Members, layers: seq<Json>): Result<seq<Bytes>, Rejection> {
    if layers == [] then Success([])
    else
      var front :- LayerBlobs(lib, members, layers[..|layers| - 1]);
      var last :- Blob(lib, members, layers[|layers| - 1]);
      Success(front + [last])
  }

  /** The digest of a descriptor, as a list of at most one. */
  function DigestOf(descriptor: Json): seq<string> {
    match DescriptorDigest(descriptor)
    case Success(stated) => [stated.0]
    case Failure(_) => []
  }

  function LayerDigests(layers: seq<Json>): seq<string> {
    if layers == [] then [] else LayerDigests(layers[..|layers| - 1]) + DigestOf(layers[|layers| - 1])
  }

  function ManifestImage(lib: Library, members: Members, manifest: Json): Result<Image, Rejection> {
    if !HasSchemaTwo(manifest) then Failure(ManifestError)
    else
      var config := Get(manifest.fields, "config");
      var configData :- Blob(lib, members, config);
      var configJson :- Parsed(lib, configData);
      if !ConfigMatches(configJson) then Failure(ManifestError)
      else
        var layers := Get(manifest.fields, "layers");
        if !layers.List? || layers.items == [] then Failure(ManifestError)
        else
          var blobs :- LayerBlobs(lib, members, layers.items);
          Success(Image(false, configData, blobs, DigestOf(config) + LayerDigests(layers.items)))
  }

  // ---- The walk ----

  /** What the two comprehensions over descriptors look for. */
  datatype Wanted = Pinned(digest: string) | ForPlatform {
    predicate Holds(descriptor: Json) {
      match this
      case Pinned(digest) => descriptor.Obj? && Get(descriptor.fields, "digest") == Str(digest)
      case ForPlatform => PlatformMatches(descriptor)
    }
  }

  /** What follows the last colon. */
  function ImageDigest(image: string): Option<string> {
    if ':' !in image then None
    else Some(SplitOn(image, ':')[|SplitOn(image, ':')| - 1])
  }

  /** The one descriptor of `index.json` with the pinned digest. */
  function RootDescriptor(lib: Library, members: Members, digest: string): Result<Json, Rejection> {
    if "index.json" !in members || !members["index.json"].kind.RegularFile? then Failure(ManifestError)
    else
      var index :- Parsed(lib, members["index.json"].data);
      if !HasSchemaTwo(index) || !Get(index.fields, "manifests").List? then Failure(ManifestError)
      else
        var roots := Filter(Get(index.fields, "manifests").items, Pinned("sha256:" + digest).Holds);
        if |roots| == 1 then Success(roots[0]) else Failure(ManifestError)
  }

  /** The one child of an image index for the required platform. */
  function PlatformDescriptor(index: Json): Result<Json, Rejection> {
    if !HasSchemaTwo(index) || !Get(index.fields, "manifests").List? then Failure(ManifestError)
    else
      var children := Filter(Get(index.fields, "manifests").items, ForPlatform.Holds);
      if |children| == 1 then Success(children[0]) else Failure(ManifestError)
  }

  datatype MediaKind = IndexMedia | ManifestMedia | UnsupportedMedia | UnhashableMedia

  function MediaKindOf(mediaType: Json): MediaKind {
    if mediaType.List? || mediaType.Obj? then UnhashableMedia
    else if mediaType.Str? && mediaType.text in OCI_INDEX_MEDIA_TYPES then IndexMedia
    else if mediaType.Str? && mediaType.text in OCI_IMAGE_MANIFEST_MEDIA_TYPES then ManifestMedia
    else UnsupportedMedia
  }

  /** What the root payload leads to, read as its media type says. */
  function RootImage(lib: Library, members: Members, media: MediaKind, payload: Json): Result<Image, Rejection> {
    match media
    case UnhashableMedia => Failure(TypeError)
    case UnsupportedMedia => Failure(ManifestError)
    case ManifestMedia => ManifestImage(lib, members, payload)
    case IndexMedia =>
      var child :- PlatformDescriptor(payload);
      var data :- Blob(lib, members, child);
      var manifest :- Parsed(lib, data);
      var found :- ManifestImage(lib, members, manifest);
      Success(found.(viaIndex := true, reached := DigestOf(child) + found.reached))
  }

  function Verified(lib: Library, archive: seq<Member>, image: string, platform: string): Result<Image, Rejection> {
    if platform != IMAGE_ARCHIVE_PLATFORM then Failure(ManifestError)
    else if ImageDigest(image).None? then Failure(IndexError)
    else
      var members :- MembersOf(archive);
      var root :- RootDescriptor(lib, members, ImageDigest(image).value);
      var data :- Blob(lib, members, root);
      var payload :- Parsed(lib, data);
      var media := if root.Obj? then MediaKindOf(Get(root.fields, "mediaType")) else UnsupportedMedia;
      var found :- RootImage(lib, members, media, payload);
      Success(found.(reached := DigestOf(root) + found.reached))
  }

  // ---- The loops ----

  lemma {:induction false} FailurePropagates(archive: seq<Member>, k: nat)
    requires k <= |archive| && MembersOf(archive[..k]).Failure?
    ensures MembersOf(archive) == MembersOf(archive[..k])
    decreases |archive| - k
  {
    if k == |archive| {
      assert archive[..k] == archive;
    } else {
      assert archive[..k + 1][..k] == archive[..k];
      FailurePropagates(archive, k + 1);
    }
  }

  method ArchiveMembers(archive: seq<Member>) returns (r: Result<Members, Rejection>)
    ensures r == MembersOf(archive)
  {
    var members: Members := map[];
    for i := 0 to |archive|
      invariant MembersOf(archive[..i]) == Success(members)
    {
      var member := archive[i];
      assert archive[..i + 1][..i] == archive[..i];
      if !IsSafePath(member.name) || member.name in members || member.kind.OtherKind? {
        FailurePropagates(archive, i + 1);
        return Failure(ManifestError);
      }
      members := members[member.name := member];
    }
    assert archive[..|archive|] == archive;
    r := Success(members);
  }

  /** Reads the blob in chunks, updating its size and digest, and keeps the chunks when they are asked for. */
  method VerifyDescriptorBlob(lib: Library, members: Members, descriptor: Json, returnBytes: bool)
    returns (r: Result<Option<Bytes>, Rejection>)
    ensures match Blob(lib, members, descriptor)
            case Failure(e) => r == Failure(e)
            case Success(data) => r == Success(if returnBytes then Some(data) else None)
  {
    var stated := DescriptorDigest(descriptor);
    if stated.Failure? {
      return Failure(stated.error);
    }
    var (digestHex, expectedSize) := stated.value;
    var name := BlobName(digestHex);
    if name !in members || !members[name].kind.RegularFile? {
      return Failure(ManifestError);
    }
    var data := members[name].data;
    var actualSize := 0;
    var digested: Bytes := [];
    var kept: Bytes := [];
    var position := 0;
    while position < |data|
      invariant 0 <= position <= |data|
      invariant actualSize == position && digested == data[..position]
      invariant kept == if returnBytes then data[..position] else []
    {
      var end := if position + CHUNK < |data| then position + CHUNK else |data|;
      var chunk := data[position..end];
      actualSize := actualSize + |chunk|;
      digested := digested + chunk;
      if returnBytes {
        kept := kept + chunk;
      }
      position := end;
    }
    assert data[..|data|] == data;
    if actualSize != expectedSize || lib.hash(digested) != digestHex {
      return Failure(ManifestError);
    }
    r := Success(if returnBytes then Some(kept) else None);
  }

  lemma {:induction false} LayerFailurePropagates(lib: Library, members: Members, layers: seq<Json>, k: nat)
    requires k <= |layers| && LayerBlobs(lib, members, layers[..k]).Failure?
    ensures LayerBlobs(lib, members, layers) == LayerBlobs(lib, members, layers[..k])
    decreases |layers| - k
  {
    if k == |layers| {
      assert layers[..k] == layers;
    } else {
      assert layers[..k + 1][..k] == layers[..k];
      LayerFailurePropagates(lib, members, layers, k + 1);
    }
  }

  /** The loop over the layers of a manifest. */
  method VerifyLayers(lib: Library, members: Members, layers: seq<Json>) returns (r: Result<(), Rejection>)
    ensures match LayerBlobs(lib, members, layers)
            case Failure(e) => r == Failure(e)
            case Success(_) => r == Success(())
  {
    for i := 0 to |layers|
      invariant LayerBlobs(lib, members, layers[..i]).Success?
    {
      assert layers[..i + 1][..i] == layers[..i];
      var layer := VerifyDescriptorBlob(lib, members, layers[i], false);
      if layer.Failure? {
        LayerFailurePropagates(lib, members, layers, i + 1);
        return Failure(layer.error);
      }
    }
    assert layers[..|layers|] == layers;
    r := Success(());
  }

  method VerifyImageManifest(lib: Library, members: Members, manifest: Json) returns (r: Result<(), Rejection>)
    ensures match ManifestImage(lib, members, manifest)
            case Failure(e) => r == Failure(e)
            case Success(_) => r == Success(())
  {
    if !HasSchemaTwo(manifest) {
      return Failure(ManifestError);
    }
    var config := VerifyDescriptorBlob(lib, members, Get(manifest.fields, "config"), true);
    if config.Failure? {
      return Failure(config.error);
    }
    var configJson := lib.parse(config.value.value);
    if configJson.None? || !ConfigMatches(configJson.value) {
      return Failure(ManifestError);
    }
    var layers := Get(manifest.fields, "layers");
    if !layers.List? || layers.items == [] {
      return Failure(ManifestError);
    }
    r := VerifyLayers(lib, members, layers.items);
  }

  method VerifyOciArchive(lib: Library, archive: seq<Member>, image: string, platform: string)
    returns (r: Result<(), Rejection>)
    ensures match Verified(lib, archive, image, platform)
            case Failure(e) => r == Failure(e)
            case Success(_) => r == Success(())
  {
    if platform != IMAGE_ARCHIVE_PLATFORM {
      return Failure(ManifestError);
    }
    var digest := ImageDigest(image);
    if digest.None? {
      return Failure(IndexError);
    }
    var entries := ArchiveMembers(archive);
    if entries.Failure? {
      return Failure(entries.error);
    }
    var members := entries.value;
    var root := RootDescriptor(lib, members, digest.value);
    if root.Failure? {
      return Failure(root.error);
    }
    var rootData := VerifyDescriptorBlob(lib, members, root.value, true);
    if rootData.Failure? {
      return Failure(rootData.error);
    }
    var payload := lib.parse(rootData.value.value);
    if payload.None? {
      return Failure(ManifestError);
    }
    var media := if root.value.Obj? then MediaKindOf(Get(root.value.fields, "mediaType")) else UnsupportedMedia;
    var manifest: Json;
    match media {
      case UnhashableMedia =>
        return Failure(TypeError);
      case UnsupportedMedia =>
        return Failure(ManifestError);
      case ManifestMedia =>
        manifest := payload.value;
      case IndexMedia =>
        var child := PlatformDescriptor(payload.value);
        if child.Failure? {
          return Failure(child.error);
        }
        var childData := VerifyDescriptorBlob(lib, members, child.value, true);
        if childData.Failure? {
          return Failure(childData.error);
        }
        var parsed := lib.parse(childData.value.value);
        if parsed.None? {
          return Failure(ManifestError);
        }
        manifest := parsed.value;
    }
    r := VerifyImageManifest(lib, members, manifest);
  }
}
