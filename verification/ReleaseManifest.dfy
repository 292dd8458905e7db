/** scripts/validate_frozen_release_manifest_v12_0.py: building and validating the manifest
    of the sealed v12.0.0 release. */
module ReleaseManifest {
  import opened Results
  import opened Ordering

  type Bytes = seq<bv8>

  datatype Artifact = Artifact(path: string, role: string, fileSha256: string)

  /** The manifest without its own fingerprint, which is what the fingerprint covers. */
  datatype Body = Body(
    schemaVersion: string,
    typeName: string,
    releaseVersion: string,
    status: string,
    scope: string,
    inventoryProfile: string,
    criticalSubsystems: seq<string>,
    selfReferencePolicy: string,
    canonicalization: string,
    hashAlgorithm: string,
    frozenAt: string,
    artifactCount: int,
    artifacts: seq<Artifact>)

  datatype Manifest = Manifest(body: Body, fingerprint: string)

  /** One entry of the required inventory. */
  datatype Item = Item(path: string, role: string)

  /** The checkout, the inventory, and the functions taken from elsewhere. */
  datatype Project = Project(
    files: map<string, Bytes>,           // the regular files, by relative path
    inside: string -> bool,              // the resolved path stays in the checkout
    inventory: seq<Item>,                // required_v12_0_frozen_artifacts()
    sha256: Bytes -> string,
    artifactFingerprint: Body -> string,
    timezoneTimestamp: string -> bool,
    pathPattern: string -> bool,         // the schema's pattern for paths
    digestPattern: string -> bool)       // ... and for digests

  const SCHEMA_VERSION := "core.frozen_release_manifest.v10"
  const RELEASE_VERSION := "v12.0.0"
  const INVENTORY_PROFILE := "core.sealed_public_release.v12_0_0"
  const CRITICAL_SUBSYSTEMS := ["canonicalization_jcs", "contract_program_v2", "executable_contracts",
                                "release_integrity", "v12_schema_envelope"]
  const SELF_REFERENCE_POLICY := "manifest_file_excluded_fingerprint_covers_inventory"
  const ROLES := {"ci", "contract", "documentation", "example", "release_metadata", "runtime", "schema",
                  "script", "test"}

  ghost predicate PathsDiffer(p: Project) {
    forall i, j :: 0 <= i < j < |p.inventory| ==> p.inventory[i].path != p.inventory[j].path
  }

  /** The inventory is a dictionary, and digests look like digests. */
  ghost predicate Proper(p: Project) {
    && PathsDiffer(p)
    && (forall b :: p.digestPattern(Digest(p, b)))
    && (forall b :: p.digestPattern(p.artifactFingerprint(b)))
  }

  function Digest(p: Project, bytes: Bytes): string { "sha256:" + p.sha256(bytes) }

  function Content(p: Project, path: string): Bytes {
    if path in p.files then p.files[path] else []
  }

  // ---- build_v12_0_frozen_manifest -------------------------------------------------

  predicate ItemLeq(a: Item, b: Item) {
    if a.path == b.path then StrLeq(a.role, b.role) else StrLeq(a.path, b.path)
  }

  lemma ItemOrder()
    ensures TotalPreorder(ItemLeq)
    ensures forall a, b :: ItemLeq(a, b) && ItemLeq(b, a) ==> a == b
  {
    StrTotal();
    forall a, b ensures ItemLeq(a, b) || ItemLeq(b, a) {
      assert StrLeq(a.path, b.path) || StrLeq(b.path, a.path);
      assert StrLeq(a.role, b.role) || StrLeq(b.role, a.role);
    }
    forall a, b, c | ItemLeq(a, b) && ItemLeq(b, c) ensures ItemLeq(a, c) {
      if a.path == b.path == c.path { StrTransitive(a.role, b.role, c.role); }
      else if a.path != b.path && b.path != c.path { StrTransitive(a.path, b.path, c.path); }
    }
  }

  function SortedInventory(p: Project): seq<Item> { SortBy(p.inventory, ItemLeq) }

  function Sealed(p: Project, item: Item): Artifact {
    Artifact(item.path, item.role, Digest(p, Content(p, item.path)))
  }

  function SealedAll(p: Project, items: seq<Item>): seq<Artifact> {
    seq(|items|, i requires 0 <= i < |items| => Sealed(p, items[i]))
  }

  function BodyOf(frozenAt: string, artifacts: seq<Artifact>): Body {
    Body(SCHEMA_VERSION, "frozen_release_manifest", RELEASE_VERSION, "frozen", "sealed_public_release",
         INVENTORY_PROFILE, CRITICAL_SUBSYSTEMS, SELF_REFERENCE_POLICY, "core.canonical_json.v1", "sha256",
         frozenAt, |artifacts|, artifacts)
  }

  /** The manifest of the checkout as it stands. */
  function Built(p: Project, frozenAt: string): Manifest {
    var body := BodyOf(frozenAt, SealedAll(p, SortedInventory(p)));
    Manifest(body, p.artifactFingerprint(body))
  }

  datatype BuildError = TimestampWithoutTimezone | FileNotFound(path: string)

  predicate AllPresent(p: Project) {
    forall item :: item in p.inventory ==> item.path in p.files
  }

  /** Of the inventory paths without a file, the first in order. */
  ghost predicate FirstMissing(p: Project, path: string) {
    && path !in p.files && (exists item :: item in p.inventory && item.path == path)
    && forall item :: item in p.inventory && item.path !in p.files ==> StrLeq(path, item.path)
  }

  lemma MissingInOrder(p: Project, i: nat)
    requires i < |SortedInventory(p)| && SortedInventory(p)[i].path !in p.files
    requires forall k :: 0 <= k < i ==> SortedInventory(p)[k].path in p.files
    ensures FirstMissing(p, SortedInventory(p)[i].path)
  {
    var expected := SortedInventory(p);
    ItemOrder();
    SortSorts(p.inventory, ItemLeq);
    SortMembers(p.inventory, ItemLeq);
    assert expected[i] in expected;
    forall item | item in p.inventory && item.path !in p.files ensures StrLeq(expected[i].path, item.path) {
      var k := IndexOf(expected, item);
      StrOrder(item.path, item.path);
      if k > i { assert ItemLeq(expected[i], expected[k]); }
    }
  }

  method BuildFrozenManifest(p: Project, frozenAt: string) returns (r: Result<Manifest, BuildError>)
    ensures r.Ok? <==> p.timezoneTimestamp(frozenAt) && AllPresent(p)
    ensures r.Ok? ==> r.value == Built(p, frozenAt)
    ensures r.Ok? && PathsDiffer(p) ==> BuiltSays(p, frozenAt, r.value)
    ensures r == Raised(TimestampWithoutTimezone) <==> !p.timezoneTimestamp(frozenAt)
    ensures r.Raised? && r.error.FileNotFound? ==> FirstMissing(p, r.error.path)
  {
    if !p.timezoneTimestamp(frozenAt) {
      return Raised(TimestampWithoutTimezone);
    }
    var expected := SortedInventory(p);
    SortMembers(p.inventory, ItemLeq);
    var artifacts: seq<Artifact> := [];
    for i := 0 to |expected|
      invariant artifacts == SealedAll(p, expected[..i])
      invariant forall k :: 0 <= k < i ==> expected[k].path in p.files
    {
      var item := expected[i];
      assert item in expected;
      if item.path !in p.files {
        MissingInOrder(p, i);
        return Raised(FileNotFound(item.path));
      }
      artifacts := artifacts + [Artifact(item.path, item.role, Digest(p, p.files[item.path]))];
      assert expected[..i + 1] == expected[..i] + [item];
    }
    assert expected[..|expected|] == expected;
    forall item | item in p.inventory ensures item.path in p.files { assert item in expected; }
    var body := BodyOf(frozenAt, artifacts);
    r := Ok(Manifest(body, p.artifactFingerprint(body)));
    if PathsDiffer(p) { BuiltIs(p, frozenAt); }
  }

  // ---- validate_v12_0_release_manifest ---------------------------------------------

  /** What reading the manifest file yields. */
  datatype Source = FileMissing | FileUnreadable | NotJson | NotAnObject | Parsed(manifest: Manifest)

  datatype Error =
    | ManifestNotFound | ManifestUnreadable | InvalidJson | SchemaValidationError
    | NoncanonicalArtifactOrder | DuplicateArtifactPath | ArtifactCountMismatch | ArtifactInventoryMismatch
    | ArtifactRoleMismatch(path: string) | UnsafeArtifactPath(index: nat) | ArtifactMissing(index: nat)
    | ArtifactHashMismatch(index: nat) | InvalidFrozenAt | FingerprintMismatch

  /** What the schema asks of a payload of this shape. */
  predicate SchemaValid(p: Project, m: Manifest) {
    var b := m.body;
    && b == BodyOf(b.frozenAt, b.artifacts).(artifactCount := b.artifactCount)
    && b.artifactCount >= 1 && b.artifacts != []
    && (forall a :: a in b.artifacts ==> p.pathPattern(a.path) && a.role in ROLES && p.digestPattern(a.fileSha256))
    && p.digestPattern(m.fingerprint)
  }

  function Paths(artifacts: seq<Artifact>): seq<string> { MapSeq(artifacts, (a: Artifact) => a.path) }

  /** {item["path"]: item["role"]}: the last entry of a repeated path wins. */
  function Roles(artifacts: seq<Artifact>): map<string, string> {
    if artifacts == [] then map[]
    else
      var last := artifacts[|artifacts| - 1];
      Roles(artifacts[..|artifacts| - 1])[last.path := last.role]
  }

  lemma {:induction false} RolesAre(artifacts: seq<Artifact>)
    ensures forall x :: x in Roles(artifacts) <==> x in Paths(artifacts)
    ensures Distinct(Paths(artifacts)) ==>
              forall i :: 0 <= i < |artifacts| ==> Roles(artifacts)[artifacts[i].path] == artifacts[i].role
  {
    if artifacts != [] {
      var m := |artifacts| - 1;
      var prior := artifacts[..m];
      RolesAre(prior);
      assert Paths(artifacts) == Paths(prior) + [artifacts[m].path];
      if Distinct(Paths(artifacts)) {
        assert Distinct(Paths(prior));
        forall i | 0 <= i < |artifacts|
          ensures artifacts[i].path in Roles(artifacts) && Roles(artifacts)[artifacts[i].path] == artifacts[i].role
        {
          assert Paths(artifacts)[i] == artifacts[i].path;
          if i < m {
            assert prior[i] == artifacts[i];
            assert Paths(artifacts)[i] != Paths(artifacts)[m];
          }
        }
      }
    }
  }

  function InventoryPaths(items: seq<Item>): seq<string> { MapSeq(items, (item: Item) => item.path) }

  method CheckRoles(p: Project, actual: map<string, string>) returns (errors: seq<Error>)
    ensures forall e :: e in errors <==> e.ArtifactRoleMismatch? && exists item ::
              item in p.inventory && item.path == e.path && item.path in actual && actual[item.path] != item.role
  {
    var expected := SortedInventory(p);
    SortMembers(p.inventory, ItemLeq);
    errors := [];
    for i := 0 to |expected|
      invariant forall e :: e in errors <==> e.ArtifactRoleMismatch? && exists item ::
                  item in expected[..i] && item.path == e.path && item.path in actual && actual[item.path] != item.role
    {
      var item := expected[i];
      assert expected[..i + 1] == expected[..i] + [item];
      if item.path in actual && actual[item.path] != item.role {
        errors := errors + [ArtifactRoleMismatch(item.path)];
      }
    }
    assert expected[..|expected|] == expected;
  }

  /** Why the file behind an artifact is faulted. */
  predicate FileFault(p: Project, a: Artifact, i: nat, live: bool, e: Error) {
    if !p.inside(a.path) then e == UnsafeArtifactPath(i)
    else if a.path !in p.files then e == ArtifactMissing(i)
    else live && a.fileSha256 != Digest(p, p.files[a.path]) && e == ArtifactHashMismatch(i)
  }

  method CheckFiles(p: Project, artifacts: seq<Artifact>, live: bool) returns (errors: seq<Error>)
    ensures forall e :: e in errors <==> exists i :: 0 <= i < |artifacts| && FileFault(p, artifacts[i], i, live, e)
  {
    errors := [];
    for i := 0 to |artifacts|
      invariant forall e :: e in errors <==> exists k :: 0 <= k < i && FileFault(p, artifacts[k], k, live, e)
    {
      var a := artifacts[i];
      ghost var before := errors;
      if !p.inside(a.path) {
        errors := errors + [UnsafeArtifactPath(i)];
      } else if a.path !in p.files {
        errors := errors + [ArtifactMissing(i)];
      } else if live {
        var computed := Digest(p, p.files[a.path]);
        if a.fileSha256 != computed { errors := errors + [ArtifactHashMismatch(i)]; }
      }
      assert forall e :: e in errors <==> e in before || FileFault(p, artifacts[i], i, live, e);
    }
  }

  /** The artifacts are the inventory, in order, with the roles it gives. */
  ghost predicate ListsInventory(p: Project, artifacts: seq<Artifact>) {
    ItemsOf(artifacts) == SortedInventory(p)
  }

  function ItemOf(a: Artifact): Item { Item(a.path, a.role) }

  function ItemsOf(artifacts: seq<Artifact>): seq<Item> {
    seq(|artifacts|, i requires 0 <= i < |artifacts| => ItemOf(artifacts[i]))
  }

  /** Everything a manifest says is true of the project; with live, of its files as well. */
  ghost predicate Genuine(p: Project, m: Manifest, live: bool) {
    && SchemaValid(p, m)
    && ListsInventory(p, m.body.artifacts)
    && m.body.artifactCount == |m.body.artifacts|
    && (forall a :: a in m.body.artifacts ==> p.inside(a.path) && a.path in p.files)
    && (live ==> forall a :: a in m.body.artifacts ==> a.fileSha256 == Digest(p, Content(p, a.path)))
    && p.timezoneTimestamp(m.body.frozenAt)
    && m.fingerprint == p.artifactFingerprint(m.body)
  }

  // ---- What each error means -------------------------------------------------------

  /** What is wrong with the artifact list as a whole. */
  datatype Flaws = Flaws(schema: bool, order: bool, repeated: bool, count: bool, inventory: bool)

  predicate FlawReported(f: Flaws, e: Error) {
    match e
    case SchemaValidationError => f.schema
    case NoncanonicalArtifactOrder => f.order
    case DuplicateArtifactPath => f.repeated
    case ArtifactCountMismatch => f.count
    case ArtifactInventoryMismatch => f.inventory
    case _ => false
  }

  ghost function FlawsOf(p: Project, m: Manifest): Flaws {
    FlawsIn(!SchemaValid(p, m), Paths(m.body.artifacts), m.body.artifactCount, InventoryPaths(p.inventory))
  }

  ghost function FlawsIn(schema: bool, paths: seq<string>, count: int, inventory: seq<string>): Flaws {
    Flaws(schema, !SortedBy(paths, StrLeq), !Distinct(paths), count != |paths|,
          !forall x :: x in paths <==> x in inventory)
  }

  function NoFlaws(): Flaws { Flaws(false, false, false, false, false) }

  ghost predicate RoleFault(p: Project, artifacts: seq<Artifact>, e: Error) {
    e.ArtifactRoleMismatch? && exists item ::
      && item in p.inventory && item.path == e.path
      && item.path in Roles(artifacts) && Roles(artifacts)[item.path] != item.role
  }

  predicate SealFault(p: Project, m: Manifest, e: Error) {
    || (e == InvalidFrozenAt && !p.timezoneTimestamp(m.body.frozenAt))
    || (e == FingerprintMismatch && m.fingerprint != p.artifactFingerprint(m.body))
  }

  ghost predicate ContentFault(p: Project, m: Manifest, live: bool, e: Error) {
    var artifacts := m.body.artifacts;
    || FlawReported(FlawsOf(p, m), e)
    || RoleFault(p, artifacts, e)
    || (exists i :: 0 <= i < |artifacts| && FileFault(p, artifacts[i], i, live, e))
    || SealFault(p, m, e)
  }

  /** Why a manifest is rejected. */
  ghost predicate ManifestFault(p: Project, source: Source, live: bool, e: Error) {
    match source
    case FileMissing => e == ManifestNotFound
    case FileUnreadable => e == ManifestUnreadable
    case NotJson => e == InvalidJson
    case NotAnObject => e == SchemaValidationError
    case Parsed(m) => ContentFault(p, m, live, e)
  }

  /** The comparisons of the artifact list as a whole. */
  method FindFlaws(p: Project, m: Manifest) returns (f: Flaws)
    ensures f == FlawsOf(p, m)
  {
    var artifacts := m.body.artifacts;
    var paths, actual := Paths(artifacts), Roles(artifacts);
    var inventory := InventoryPaths(p.inventory);
    var schema := !SchemaValid(p, m);
    f := Flaws(schema, paths != SortBy(paths, StrLeq), |paths| != |(set x | x in paths)|,
               m.body.artifactCount != |artifacts|, actual.Keys != (set x | x in inventory));
    FlawsAreFound(schema, artifacts, m.body.artifactCount, inventory);
  }

  method ReportFlaws(f: Flaws) returns (errors: seq<Error>)
    ensures forall e :: e in errors <==> FlawReported(f, e)
    ensures errors == [] <==> f == NoFlaws()
  {
    errors := if f.schema then [SchemaValidationError] else [];
    if f.order { errors := errors + [NoncanonicalArtifactOrder]; }
    if f.repeated { errors := errors + [DuplicateArtifactPath]; }
    if f.count { errors := errors + [ArtifactCountMismatch]; }
    if f.inventory { errors := errors + [ArtifactInventoryMismatch]; }
  }

  /** The comparisons that the program makes find exactly the flaws. */
  lemma {:induction false} FlawsAreFound(schema: bool, artifacts: seq<Artifact>, count: int, inventory: seq<string>)
    ensures var paths := Paths(artifacts);
            FlawsIn(schema, paths, count, inventory)
            == Flaws(schema, paths != SortBy(paths, StrLeq), |paths| != |set x | x in paths|, count != |artifacts|,
                     Roles(artifacts).Keys != set x | x in inventory)
  {
    SortedIff(Paths(artifacts));
    DistinctSize(Paths(artifacts));
    assert Elements(Paths(artifacts)) == set x | x in Paths(artifacts);
    RolesAre(artifacts);
  }

  lemma {:induction false} SortedIff(s: seq<string>)
    ensures s == SortBy(s, StrLeq) <==> SortedBy(s, StrLeq)
  {
    StrTotal();
    SortSorts(s, StrLeq);
    if SortedBy(s, StrLeq) { SortKeepsSorted(s, StrLeq); }
  }

  method ValidateReleaseManifest(p: Project, source: Source, live: bool) returns (errors: seq<Error>)
    requires Proper(p)
    ensures errors == [] <==> source.Parsed? && Genuine(p, source.manifest, live)
    ensures forall e :: e in errors <==> ManifestFault(p, source, live, e)
    ensures errors == [] <==> source.Parsed? && ManifestSays(p, source.manifest, live)
    ensures source.Parsed? ==> forall e :: e in errors <==> ContentCauses(p, source.manifest, live, e)
    ensures source == FileMissing ==> errors == [ManifestNotFound]
    ensures source == FileUnreadable ==> errors == [ManifestUnreadable]
    ensures source == NotJson ==> errors == [InvalidJson]
    ensures source == NotAnObject ==> errors == [SchemaValidationError]
  {
    if source.Parsed? {
      GenuineIff(p, source.manifest, live);
      forall e ensures ContentFault(p, source.manifest, live, e) <==> ContentCauses(p, source.manifest, live, e) {
        ContentFaultIff(p, source.manifest, live, e);
      }
    }
    match source {
      case FileMissing => return [ManifestNotFound];
      case FileUnreadable => return [ManifestUnreadable];
      case NotJson => return [InvalidJson];
      case NotAnObject => return [SchemaValidationError];
      case Parsed(m) => errors := CheckManifest(p, m, live);
    }
  }

  method CheckManifest(p: Project, m: Manifest, live: bool) returns (errors: seq<Error>)
    requires Proper(p)
    ensures errors == [] <==> Genuine(p, m, live)
    ensures forall e :: e in errors <==> ContentFault(p, m, live, e)
  {
    var flaws := FindFlaws(p, m);
    var listed := ReportFlaws(flaws);
    var roles := CheckRoles(p, Roles(m.body.artifacts));
    var files := CheckFiles(p, m.body.artifacts, live);
    var late := CheckSeal(p, m);
    FlawlessList(p, !SchemaValid(p, m), m.body.artifacts, m.body.artifactCount, roles);
    FilesByParts(p, m.body.artifacts, live, files);
    errors := listed + roles + files + late;
  }

  lemma {:induction false} FlawlessList(p: Project, schema: bool, artifacts: seq<Artifact>, count: int,
                                        roles: seq<Error>)
    requires Proper(p)
    requires forall e :: e in roles <==> RoleFault(p, artifacts, e)
    ensures FlawsIn(schema, Paths(artifacts), count, InventoryPaths(p.inventory)) == NoFlaws() && roles == []
            <==> !schema && count == |artifacts| && ListsInventory(p, artifacts)
  {
    FlawsAreFound(schema, artifacts, count, InventoryPaths(p.inventory));
    InventoryByParts(p, artifacts, roles);
  }

  method CheckSeal(p: Project, m: Manifest) returns (errors: seq<Error>)
    ensures forall e :: e in errors <==> SealFault(p, m, e)
    ensures errors == [] <==> p.timezoneTimestamp(m.body.frozenAt) && m.fingerprint == p.artifactFingerprint(m.body)
  {
    errors := [];
    if !p.timezoneTimestamp(m.body.frozenAt) { errors := errors + [InvalidFrozenAt]; }
    if m.fingerprint != p.artifactFingerprint(m.body) { errors := errors + [FingerprintMismatch]; }
  }

  lemma FilesByParts(p: Project, artifacts: seq<Artifact>, live: bool, files: seq<Error>)
    requires forall e :: e in files <==> exists i :: 0 <= i < |artifacts| && FileFault(p, artifacts[i], i, live, e)
    ensures files == [] <==>
              (forall a :: a in artifacts ==> p.inside(a.path) && a.path in p.files)
              && (live ==> forall a :: a in artifacts ==> a.fileSha256 == Digest(p, Content(p, a.path)))
  {
    if files == [] {
      forall i | 0 <= i < |artifacts|
        ensures p.inside(artifacts[i].path) && artifacts[i].path in p.files
        ensures live ==> artifacts[i].fileSha256 == Digest(p, Content(p, artifacts[i].path))
      {
        assert !FileFault(p, artifacts[i], i, live, UnsafeArtifactPath(i)) by {
          assert UnsafeArtifactPath(i) !in files;
        }
        assert !FileFault(p, artifacts[i], i, live, ArtifactMissing(i)) by { assert ArtifactMissing(i) !in files; }
        assert !FileFault(p, artifacts[i], i, live, ArtifactHashMismatch(i)) by {
          assert ArtifactHashMismatch(i) !in files;
        }
      }
    } else {
      var e := files[0];
      assert e in files;
      var i :| 0 <= i < |artifacts| && FileFault(p, artifacts[i], i, live, e);
      assert artifacts[i] in artifacts;
    }
  }

  /** Sorted paths without repetition, the right set of them and the right role for each:
      together, the inventory itself, entry by entry. */
  lemma {:induction false} InventoryByParts(p: Project, artifacts: seq<Artifact>, roles: seq<Error>)
    requires Proper(p)
    requires forall e :: e in roles <==> e.ArtifactRoleMismatch? && exists item ::
               item in p.inventory && item.path == e.path && item.path in Roles(artifacts)
               && Roles(artifacts)[item.path] != item.role
    ensures (&& Paths(artifacts) == SortBy(Paths(artifacts), StrLeq)
             && |Paths(artifacts)| == |set x | x in Paths(artifacts)|
             && Roles(artifacts).Keys == (set x | x in InventoryPaths(p.inventory))
             && roles == [])
            <==> ListsInventory(p, artifacts)
  {
    var paths := Paths(artifacts);
    DistinctSize(paths);
    assert Elements(paths) == set x | x in paths;
    RolesAre(artifacts);
    assert roles != [] ==> roles[0] in roles;
    if ListsInventory(p, artifacts) {
      InventoryIsSorted(p, artifacts);
      InventoryHasRoles(p, artifacts);
      SamePaths(p, artifacts);
    } else if && paths == SortBy(paths, StrLeq) && Distinct(paths)
              && Roles(artifacts).Keys == (set x | x in InventoryPaths(p.inventory)) && roles == [] {
      ChecksGiveInventory(p, artifacts, roles);
    }
  }

  lemma InventoryIsDistinct(p: Project)
    requires PathsDiffer(p)
    ensures Distinct(p.inventory) && Distinct(SortedInventory(p)) && SortedBy(SortedInventory(p), ItemLeq)
    ensures forall item :: item in SortedInventory(p) <==> item in p.inventory
    ensures forall i, j :: 0 <= i < |SortedInventory(p)| && 0 <= j < |SortedInventory(p)| && i != j
              ==> SortedInventory(p)[i].path != SortedInventory(p)[j].path
  {
    ItemOrder();
    SortMembers(p.inventory, ItemLeq);
    SortSorts(p.inventory, ItemLeq);
    SortKeepsDistinct(p.inventory, ItemLeq);
    var s := SortedInventory(p);
    forall i, j | 0 <= i < |s| && 0 <= j < |s| && i != j ensures s[i].path != s[j].path {
      assert s[i] in s && s[j] in s;
      var k := IndexOf(p.inventory, s[i]);
      var l := IndexOf(p.inventory, s[j]);
      assert s[i] != s[j];
    }
  }

  /** Listing the inventory passes the checks of order and repetition, */
  lemma {:induction false} InventoryIsSorted(p: Project, artifacts: seq<Artifact>)
    requires Proper(p) && ListsInventory(p, artifacts)
    ensures Paths(artifacts) == SortBy(Paths(artifacts), StrLeq) && Distinct(Paths(artifacts))
  {
    InventoryIsDistinct(p);
    var s, paths := SortedInventory(p), Paths(artifacts);
    forall i, j | 0 <= i < j < |paths| ensures StrLeq(paths[i], paths[j]) && paths[i] != paths[j] {
      assert ItemLeq(s[i], s[j]);
    }
    SortKeepsSorted(paths, StrLeq);
  }

  /** ... of roles, */
  lemma {:induction false} InventoryHasRoles(p: Project, artifacts: seq<Artifact>)
    requires Proper(p) && ListsInventory(p, artifacts)
    ensures forall item :: item in p.inventory ==>
              item.path in Roles(artifacts) && Roles(artifacts)[item.path] == item.role
  {
    InventoryIsSorted(p, artifacts);
    InventoryIsDistinct(p);
    RolesAre(artifacts);
    forall item | item in p.inventory
      ensures item.path in Roles(artifacts) && Roles(artifacts)[item.path] == item.role
    {
      var i := IndexOf(SortedInventory(p), item);
      assert Paths(artifacts)[i] in Paths(artifacts);
    }
  }

  lemma {:induction false} SamePaths(p: Project, artifacts: seq<Artifact>)
    requires Proper(p) && ListsInventory(p, artifacts)
    ensures Roles(artifacts).Keys == set x | x in InventoryPaths(p.inventory)
  {
    InventoryHasRoles(p, artifacts);
    SortMembers(p.inventory, ItemLeq);
    RolesAre(artifacts);
    forall x ensures x in Roles(artifacts) <==> x in InventoryPaths(p.inventory) {
      if x in Roles(artifacts) {
        var i := IndexOf(Paths(artifacts), x);
        var item := SortedInventory(p)[i];
        assert item in SortedInventory(p);
        var k := IndexOf(p.inventory, item);
        assert InventoryPaths(p.inventory)[k] == x;
      }
      if x in InventoryPaths(p.inventory) {
        var k := IndexOf(InventoryPaths(p.inventory), x);
        assert p.inventory[k] in p.inventory;
      }
    }
  }

  /** Artifacts sorted by distinct paths are sorted and distinct as (path, role) pairs. */
  lemma ItemsSorted(artifacts: seq<Artifact>)
    requires Paths(artifacts) == SortBy(Paths(artifacts), StrLeq) && Distinct(Paths(artifacts))
    ensures SortedBy(ItemsOf(artifacts), ItemLeq) && Distinct(ItemsOf(artifacts))
  {
    var items, paths := ItemsOf(artifacts), Paths(artifacts);
    StrTotal();
    SortSorts(paths, StrLeq);
    forall i, j | 0 <= i < j < |items| ensures ItemLeq(items[i], items[j]) && items[i] != items[j] {
      assert StrLeq(paths[i], paths[j]) && paths[i] != paths[j];
    }
  }

  lemma {:induction false} ChecksGiveInventory(p: Project, artifacts: seq<Artifact>, roles: seq<Error>)
    requires Proper(p)
    requires Paths(artifacts) == SortBy(Paths(artifacts), StrLeq) && Distinct(Paths(artifacts))
    requires Roles(artifacts).Keys == set x | x in InventoryPaths(p.inventory)
    requires roles == [] && forall e :: e in roles <==> e.ArtifactRoleMismatch? && exists item ::
               item in p.inventory && item.path == e.path && item.path in Roles(artifacts)
               && Roles(artifacts)[item.path] != item.role
    ensures ListsInventory(p, artifacts)
  {
    InventoryIsDistinct(p);
    ItemsSorted(artifacts);
    forall item | item in p.inventory
      ensures item.path in Roles(artifacts) && Roles(artifacts)[item.path] == item.role
    {
      var k := IndexOf(p.inventory, item);
      assert InventoryPaths(p.inventory)[k] == item.path;
      assert ArtifactRoleMismatch(item.path) !in roles;
    }
    SameItems(p, artifacts);
    ItemOrder();
    SortedSetUnique(ItemsOf(artifacts), SortedInventory(p), ItemLeq);
  }

  lemma {:induction false} SameItems(p: Project, artifacts: seq<Artifact>)
    requires Distinct(Paths(artifacts))
    requires Roles(artifacts).Keys == set x | x in InventoryPaths(p.inventory)
    requires forall item :: item in p.inventory ==>
              item.path in Roles(artifacts) && Roles(artifacts)[item.path] == item.role
    ensures forall item :: item in ItemsOf(artifacts) <==> item in SortedInventory(p)
  {
    var items, paths := ItemsOf(artifacts), Paths(artifacts);
    RolesAre(artifacts);
    SortMembers(p.inventory, ItemLeq);
    forall item ensures item in items <==> item in p.inventory {
      if item in items {
        var i := IndexOf(items, item);
        assert paths[i] in paths && paths[i] in Roles(artifacts);
        var k := IndexOf(InventoryPaths(p.inventory), paths[i]);
        assert p.inventory[k] in p.inventory;
      }
      if item in p.inventory {
        var i := IndexOf(paths, item.path);
        assert items[i] == item;
      }
    }
  }

  // ---- Builder and validator agree -------------------------------------------------

  /** The inventory can be sealed: its files exist inside the checkout and its entries fit
      the schema. */
  ghost predicate Sealable(p: Project) {
    && p.inventory != [] && AllPresent(p)
    && forall item :: item in p.inventory ==> p.inside(item.path) && p.pathPattern(item.path) && item.role in ROLES
  }

  lemma GenuineIsSealable(p: Project, m: Manifest, live: bool)
    requires Proper(p) && Genuine(p, m, live)
    ensures Sealable(p)
  {
    var s, artifacts := SortedInventory(p), m.body.artifacts;
    SortMembers(p.inventory, ItemLeq);
    assert |ItemsOf(artifacts)| == |s|;
    SortPermutes(p.inventory, ItemLeq);
    forall item | item in p.inventory
      ensures item.path in p.files && p.inside(item.path) && p.pathPattern(item.path) && item.role in ROLES
    {
      assert item in s;
      var i := IndexOf(s, item);
      assert ItemsOf(artifacts)[i] == item;
      assert artifacts[i] in artifacts;
    }
  }

  lemma SealableFits(p: Project, artifacts: seq<Artifact>)
    requires Sealable(p) && ListsInventory(p, artifacts)
    ensures artifacts != []
    ensures forall a :: a in artifacts ==>
              p.inside(a.path) && a.path in p.files && p.pathPattern(a.path) && a.role in ROLES
  {
    var s := SortedInventory(p);
    SortMembers(p.inventory, ItemLeq);
    SortPermutes(p.inventory, ItemLeq);
    forall a | a in artifacts
      ensures p.inside(a.path) && a.path in p.files && p.pathPattern(a.path) && a.role in ROLES
    {
      var i := IndexOf(artifacts, a);
      assert ItemsOf(artifacts)[i] == s[i] && s[i] in s;
    }
  }

  /** Live validation accepts a manifest exactly when the builder, run on the same checkout
      with the manifest's own timestamp, would produce it. */
  lemma LiveValidIffBuilt(p: Project, m: Manifest)
    requires Proper(p)
    ensures Genuine(p, m, true)
            <==> Sealable(p) && p.timezoneTimestamp(m.body.frozenAt) && m == Built(p, m.body.frozenAt)
  {
    var s, artifacts := SortedInventory(p), m.body.artifacts;
    if Genuine(p, m, true) {
      GenuineIsSealable(p, m, true);
      forall i | 0 <= i < |artifacts| ensures artifacts[i] == Sealed(p, s[i]) {
        assert artifacts[i] in artifacts && ItemsOf(artifacts)[i] == s[i];
      }
      assert artifacts == SealedAll(p, s);
    }
    if Sealable(p) && m == Built(p, m.body.frozenAt) {
      assert ItemsOf(artifacts) == s;
      SealableFits(p, artifacts);
      forall a | a in artifacts ensures a.fileSha256 == Digest(p, Content(p, a.path)) {
        var i := IndexOf(artifacts, a);
        assert artifacts[i] == Sealed(p, s[i]);
      }
    }
  }

  /** A manifest pins the files: two checkouts that accept the same manifest live have the
      same bytes under every inventory path, unless two of these contents collide. */
  lemma ManifestPinsFiles(p: Project, q: Project, m: Manifest, path: string)
    requires Proper(p) && Proper(q) && p.sha256 == q.sha256
    requires Genuine(p, m, true) && Genuine(q, m, true)
    requires path in InventoryPaths(p.inventory)
    requires p.sha256(Content(p, path)) == q.sha256(Content(q, path)) ==> Content(p, path) == Content(q, path)
    ensures path in p.files && path in q.files && p.files[path] == q.files[path]
  {
    var k := IndexOf(InventoryPaths(p.inventory), path);
    SortMembers(p.inventory, ItemLeq);
    assert p.inventory[k] in p.inventory;
    var i := IndexOf(SortedInventory(p), p.inventory[k]);
    var a := m.body.artifacts[i];
    assert ItemsOf(m.body.artifacts)[i] == p.inventory[k];
    assert a in m.body.artifacts && a.path == path;
    var c, d := Content(p, path), Content(q, path);
    assert Digest(p, c)[|"sha256:"|..] == p.sha256(c) && Digest(q, d)[|"sha256:"|..] == q.sha256(d);
  }

  /** The artifacts with the digests that the files have now. */
  function Redigested(p: Project, artifacts: seq<Artifact>): seq<Artifact> {
    seq(|artifacts|, i requires 0 <= i < |artifacts| =>
          artifacts[i].(fileSha256 := Digest(p, Content(p, artifacts[i].path))))
  }

  lemma RedigestedIsSealedIff(p: Project, artifacts: seq<Artifact>)
    ensures Redigested(p, artifacts) == SealedAll(p, SortedInventory(p)) <==> ListsInventory(p, artifacts)
  {
    var r, s := Redigested(p, artifacts), SortedInventory(p);
    if r == SealedAll(p, s) {
      forall i | 0 <= i < |artifacts| ensures ItemsOf(artifacts)[i] == s[i] { assert r[i] == Sealed(p, s[i]); }
      assert |artifacts| == |s|;
    }
    if ListsInventory(p, artifacts) {
      forall i | 0 <= i < |artifacts| ensures r[i] == Sealed(p, s[i]) { assert ItemsOf(artifacts)[i] == s[i]; }
      assert |artifacts| == |s|;
    }
  }

  /** Historical validation, which does not look at the bytes, accepts a manifest exactly when it is the one
      the builder makes of the checkout, apart from the digests it records for the files, which need
      only look like digests, and the fingerprint over them. */
  lemma HistoricalValidIff(p: Project, m: Manifest)
    requires Proper(p)
    ensures Genuine(p, m, false)
            <==> && Sealable(p) && p.timezoneTimestamp(m.body.frozenAt)
                 && m.body.(artifacts := Redigested(p, m.body.artifacts)) == Built(p, m.body.frozenAt).body
                 && (forall a :: a in m.body.artifacts ==> p.digestPattern(a.fileSha256))
                 && m.fingerprint == p.artifactFingerprint(m.body)
  {
    var artifacts := m.body.artifacts;
    RedigestedIsSealedIff(p, artifacts);
    if Genuine(p, m, false) {
      GenuineIsSealable(p, m, false);
      assert m.body == BodyOf(m.body.frozenAt, artifacts);
    }
    if Sealable(p) && m.body.(artifacts := Redigested(p, artifacts)) == Built(p, m.body.frozenAt).body {
      assert Redigested(p, artifacts) == SealedAll(p, SortedInventory(p));
      SealableFits(p, artifacts);
    }
  }

  // ---- Manifests and errors, read off the checkout ---------------------------------

  /** The fields that are the same in every manifest of this release. */
  predicate HeadSays(b: Body) {
    && b.schemaVersion == "core.frozen_release_manifest.v10" && b.typeName == "frozen_release_manifest"
    && b.releaseVersion == "v12.0.0" && b.status == "frozen" && b.scope == "sealed_public_release"
    && b.inventoryProfile == "core.sealed_public_release.v12_0_0"
    && b.criticalSubsystems == ["canonicalization_jcs", "contract_program_v2", "executable_contracts",
                                "release_integrity", "v12_schema_envelope"]
    && b.selfReferencePolicy == "manifest_file_excluded_fingerprint_covers_inventory"
    && b.canonicalization == "core.canonical_json.v1" && b.hashAlgorithm == "sha256"
  }

  /** The artifacts are the inventory, by strictly increasing paths. */
  ghost predicate ListSays(p: Project, artifacts: seq<Artifact>) {
    && (forall i, j :: 0 <= i < j < |artifacts| ==>
          StrLeq(artifacts[i].path, artifacts[j].path) && artifacts[i].path != artifacts[j].path)
    && forall path, role ::
         Item(path, role) in p.inventory <==> exists a :: a in artifacts && a.path == path && a.role == role
  }

  /** What the schema asks. */
  predicate SchemaSays(p: Project, m: Manifest) {
    && HeadSays(m.body) && m.body.artifactCount >= 1 && m.body.artifacts != [] && p.digestPattern(m.fingerprint)
    && forall a :: a in m.body.artifacts ==>
         && p.pathPattern(a.path) && p.digestPattern(a.fileSha256)
         && a.role in ["ci", "contract", "documentation", "example", "release_metadata", "runtime", "schema", "script",
                       "test"]
  }

  /** A manifest that deserves acceptance, without reference to how it is checked. */
  ghost predicate ManifestSays(p: Project, m: Manifest, live: bool) {
    var b := m.body;
    && SchemaSays(p, m) && ListSays(p, b.artifacts) && b.artifactCount == |b.artifacts|
    && (forall a :: a in b.artifacts ==>
          && p.inside(a.path) && a.path in p.files
          && (live ==> a.fileSha256 == "sha256:" + p.sha256(p.files[a.path])))
    && p.timezoneTimestamp(b.frozenAt) && m.fingerprint == p.artifactFingerprint(b)
  }

  /** The manifest that the builder makes. */
  ghost predicate BuiltSays(p: Project, frozenAt: string, m: Manifest) {
    var b := m.body;
    && HeadSays(b) && b.frozenAt == frozenAt && ListSays(p, b.artifacts) && b.artifactCount == |b.artifacts|
    && (forall a :: a in b.artifacts ==>
          a.path in p.files && a.fileSha256 == "sha256:" + p.sha256(p.files[a.path]))
    && m.fingerprint == p.artifactFingerprint(b)
  }

  lemma SchemaIff(p: Project, m: Manifest)
    ensures SchemaValid(p, m) <==> SchemaSays(p, m)
  {
    var b := m.body;
    HeadIff(b);
    assert ROLES == {"ci", "contract", "documentation", "example", "release_metadata", "runtime", "schema", "script",
                     "test"};
  }

  lemma HeadIff(b: Body)
    ensures b == BodyOf(b.frozenAt, b.artifacts).(artifactCount := b.artifactCount) <==> HeadSays(b)
  {
  }

  lemma {:induction false} ListIff(p: Project, artifacts: seq<Artifact>)
    requires PathsDiffer(p)
    ensures ListsInventory(p, artifacts) <==> ListSays(p, artifacts)
  {
    var items, sorted := ItemsOf(artifacts), SortedInventory(p);
    ItemOrder();
    SortSorts(p.inventory, ItemLeq);
    SortMembers(p.inventory, ItemLeq);
    InventoryIsDistinct(p);
    ItemsAre(artifacts);
    if items == sorted {
      forall i, j | 0 <= i < j < |artifacts|
        ensures StrLeq(artifacts[i].path, artifacts[j].path) && artifacts[i].path != artifacts[j].path
      {
        assert ItemLeq(sorted[i], sorted[j]) && sorted[i] == items[i] && sorted[j] == items[j];
        assert sorted[i].path != sorted[j].path;
      }
    }
    if ListSays(p, artifacts) {
      forall i, j | 0 <= i < j < |items| ensures ItemLeq(items[i], items[j]) && items[i] != items[j] {
        assert artifacts[i].path != artifacts[j].path;
      }
      forall x ensures x in items <==> x in sorted { assert x == Item(x.path, x.role); }
      SortKeepsDistinct(p.inventory, ItemLeq);
      SortedSetUnique(items, sorted, ItemLeq);
    }
  }

  lemma ItemsAre(artifacts: seq<Artifact>)
    ensures forall path, role ::
              Item(path, role) in ItemsOf(artifacts) <==> exists a :: a in artifacts && a.path == path && a.role == role
  {
    forall path, role
      ensures Item(path, role) in ItemsOf(artifacts) <==> exists a :: a in artifacts && a.path == path && a.role == role
    {
      if Item(path, role) in ItemsOf(artifacts) {
        var i := IndexOf(ItemsOf(artifacts), Item(path, role));
        assert artifacts[i] in artifacts && ItemOf(artifacts[i]) == Item(path, role);
      }
      if a :| a in artifacts && a.path == path && a.role == role {
        var i := IndexOf(artifacts, a);
        assert ItemsOf(artifacts)[i] == Item(path, role);
      }
    }
  }

  /** Exactly the manifests that say so are genuine. */
  lemma GenuineIff(p: Project, m: Manifest, live: bool)
    requires Proper(p)
    ensures Genuine(p, m, live) <==> ManifestSays(p, m, live)
  {
    SchemaIff(p, m);
    ListIff(p, m.body.artifacts);
  }

  lemma {:induction false} BuiltIs(p: Project, frozenAt: string)
    requires AllPresent(p)
    requires PathsDiffer(p)
    ensures BuiltSays(p, frozenAt, Built(p, frozenAt))
  {
    var b := Built(p, frozenAt).body;
    HeadIff(b);
    assert ItemsOf(b.artifacts) == SortedInventory(p);
    ListIff(p, b.artifacts);
    SortMembers(p.inventory, ItemLeq);
    forall a | a in b.artifacts ensures a.path in p.files && a.fileSha256 == "sha256:" + p.sha256(p.files[a.path]) {
      var i := IndexOf(b.artifacts, a);
      assert SortedInventory(p)[i] in SortedInventory(p);
    }
  }

  /** The last artifact with this path has another role than the inventory gives it. */
  ghost predicate RoleDiffers(p: Project, artifacts: seq<Artifact>, path: string) {
    exists i, role :: 0 <= i < |artifacts| && artifacts[i].path == path && Item(path, role) in p.inventory
                      && artifacts[i].role != role && forall j :: i < j < |artifacts| ==> artifacts[j].path != path
  }

  ghost predicate FileCauses(p: Project, artifacts: seq<Artifact>, live: bool, e: Error) {
    match e
    case UnsafeArtifactPath(i) => i < |artifacts| && !p.inside(artifacts[i].path)
    case ArtifactMissing(i) => i < |artifacts| && p.inside(artifacts[i].path) && artifacts[i].path !in p.files
    case ArtifactHashMismatch(i) =>
      && live && i < |artifacts| && p.inside(artifacts[i].path) && artifacts[i].path in p.files
      && artifacts[i].fileSha256 != "sha256:" + p.sha256(p.files[artifacts[i].path])
    case _ => false
  }

  /** What each error says about a manifest that could be read. */
  ghost predicate ContentCauses(p: Project, m: Manifest, live: bool, e: Error) {
    var b := m.body;
    match e
    case SchemaValidationError => !SchemaSays(p, m)
    case NoncanonicalArtifactOrder =>
      exists i, j :: 0 <= i < j < |b.artifacts| && !StrLeq(b.artifacts[i].path, b.artifacts[j].path)
    case DuplicateArtifactPath =>
      exists i, j :: 0 <= i < j < |b.artifacts| && b.artifacts[i].path == b.artifacts[j].path
    case ArtifactCountMismatch => b.artifactCount != |b.artifacts|
    case ArtifactInventoryMismatch =>
      || (exists a :: a in b.artifacts && forall item :: item in p.inventory ==> item.path != a.path)
      || (exists item :: item in p.inventory && forall a :: a in b.artifacts ==> a.path != item.path)
    case ArtifactRoleMismatch(path) => RoleDiffers(p, b.artifacts, path)
    case InvalidFrozenAt => !p.timezoneTimestamp(b.frozenAt)
    case FingerprintMismatch => m.fingerprint != p.artifactFingerprint(b)
    case _ => FileCauses(p, b.artifacts, live, e)
  }

  /** The last entry of a path gives its role. */
  lemma {:induction false} RoleOfLast(artifacts: seq<Artifact>, i: nat)
    requires i < |artifacts| && forall j :: i < j < |artifacts| ==> artifacts[j].path != artifacts[i].path
    ensures artifacts[i].path in Roles(artifacts) && Roles(artifacts)[artifacts[i].path] == artifacts[i].role
  {
    var n := |artifacts| - 1;
    if i < n { RoleOfLast(artifacts[..n], i); }
  }

  lemma {:induction false} LastWithPath(artifacts: seq<Artifact>, k: nat) returns (i: nat)
    requires k < |artifacts|
    ensures i < |artifacts| && artifacts[i].path == artifacts[k].path
    ensures forall j :: i < j < |artifacts| ==> artifacts[j].path != artifacts[k].path
    decreases |artifacts| - k
  {
    if j :| k < j < |artifacts| && artifacts[j].path == artifacts[k].path {
      i := LastWithPath(artifacts, j);
    } else {
      i := k;
    }
  }

  lemma RoleFaultIff(p: Project, artifacts: seq<Artifact>, path: string)
    ensures RoleFault(p, artifacts, ArtifactRoleMismatch(path)) <==> RoleDiffers(p, artifacts, path)
  {
    if RoleFault(p, artifacts, ArtifactRoleMismatch(path)) {
      var item :| item in p.inventory && item.path == path && path in Roles(artifacts)
                  && Roles(artifacts)[path] != item.role;
      RolesAre(artifacts);
      var k := IndexOf(Paths(artifacts), path);
      var i := LastWithPath(artifacts, k);
      RoleOfLast(artifacts, i);
      assert item == Item(path, item.role);
    }
    if RoleDiffers(p, artifacts, path) {
      var i, role :| 0 <= i < |artifacts| && artifacts[i].path == path && Item(path, role) in p.inventory
                     && artifacts[i].role != role && forall j :: i < j < |artifacts| ==> artifacts[j].path != path;
      RoleOfLast(artifacts, i);
    }
  }

  lemma PathListed(artifacts: seq<Artifact>, x: string)
    ensures x in Paths(artifacts) <==> exists a :: a in artifacts && a.path == x
  {
    if x in Paths(artifacts) {
      var i := IndexOf(Paths(artifacts), x);
      assert artifacts[i] in artifacts;
    }
    if exists a :: a in artifacts && a.path == x {
      var a :| a in artifacts && a.path == x;
      var i := IndexOf(artifacts, a);
      assert Paths(artifacts)[i] == x;
    }
  }

  lemma PathRequired(inventory: seq<Item>, x: string)
    ensures x in InventoryPaths(inventory) <==> exists item :: item in inventory && item.path == x
  {
    if x in InventoryPaths(inventory) {
      var i := IndexOf(InventoryPaths(inventory), x);
      assert inventory[i] in inventory;
    }
    if exists item :: item in inventory && item.path == x {
      var item :| item in inventory && item.path == x;
      var i := IndexOf(inventory, item);
      assert InventoryPaths(inventory)[i] == x;
    }
  }

  lemma PathsIff(artifacts: seq<Artifact>, inventory: seq<Item>)
    ensures (forall x :: x in Paths(artifacts) <==> x in InventoryPaths(inventory))
            <==> && (forall a :: a in artifacts ==> exists item :: item in inventory && item.path == a.path)
                 && forall item :: item in inventory ==> exists a :: a in artifacts && a.path == item.path
  {
    forall x
      ensures x in Paths(artifacts) <==> exists a :: a in artifacts && a.path == x
      ensures x in InventoryPaths(inventory) <==> exists item :: item in inventory && item.path == x
    {
      PathListed(artifacts, x);
      PathRequired(inventory, x);
    }
    if forall x :: x in Paths(artifacts) <==> x in InventoryPaths(inventory) {
      forall a | a in artifacts ensures exists item :: item in inventory && item.path == a.path {
        assert a.path in Paths(artifacts);
      }
      forall item | item in inventory ensures exists a :: a in artifacts && a.path == item.path {
        assert item.path in InventoryPaths(inventory);
      }
    }
  }

  lemma FileFaultIff(p: Project, artifacts: seq<Artifact>, live: bool, e: Error)
    ensures (exists i :: 0 <= i < |artifacts| && FileFault(p, artifacts[i], i, live, e))
            <==> FileCauses(p, artifacts, live, e)
  {
    if FileCauses(p, artifacts, live, e) {
      var i := match e case UnsafeArtifactPath(i) => i case ArtifactMissing(i) => i case ArtifactHashMismatch(i) => i
                       case _ => 0;
      assert FileFault(p, artifacts[i], i, live, e);
    }
  }

  lemma FlawIff(p: Project, m: Manifest, e: Error)
    ensures FlawReported(FlawsOf(p, m), e)
            <==> e in [SchemaValidationError, NoncanonicalArtifactOrder, DuplicateArtifactPath, ArtifactCountMismatch,
                       ArtifactInventoryMismatch] && ContentCauses(p, m, false, e)
  {
    SchemaIff(p, m);
    PathsIff(m.body.artifacts, p.inventory);
  }

  /** Every error is reported exactly for what it says. */
  lemma ContentFaultIff(p: Project, m: Manifest, live: bool, e: Error)
    ensures ContentFault(p, m, live, e) <==> ContentCauses(p, m, live, e)
  {
    FlawIff(p, m, e);
    if e.ArtifactRoleMismatch? { RoleFaultIff(p, m.body.artifacts, e.path); }
    FileFaultIff(p, m.body.artifacts, live, e);
  }
}
