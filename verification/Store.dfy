/** The two tables of the bundle store, the statements run on them, and the three writing requests. */
module Store {
  import opened Wrappers
  import opened Text
  import opened Json
  import opened Eligibility

  // ----- tables -----

  datatype BundleRow = BundleRow(
    app: string, id: string, platform: string, shouldForceUpdate: bool, enabled: bool, fileHash: string,
    gitCommitHash: Option<string>, message: Option<string>, channel: string, storageUri: string,
    targetAppVersion: Option<string>, fingerprintHash: Option<string>, metadata: Option<Json>,
    rolloutCohortCount: int, targetCohorts: Option<Json>, manifestStorageUri: Option<string>,
    manifestFileHash: Option<string>, assetBaseStorageUri: Option<string>)

  datatype PatchRow = PatchRow(
    app: string, id: string, bundleId: string, baseBundleId: string, baseFileHash: string,
    patchFileHash: string, patchStorageUri: string, orderIndex: nat)

  /** A primary key: the app and the id, both without regard to case. */
  type Key = (string, string)

  function KeyOf(app: string, id: string): Key {
    (Fold(app), Fold(id))
  }

  datatype Db = Db(bundles: map<Key, BundleRow>, patches: map<Key, PatchRow>)

  /** The bundle a patch row belongs to, and the one it starts from. */
  function Owner(p: PatchRow): Key { KeyOf(p.app, p.bundleId) }

  function Base(p: PatchRow): Key { KeyOf(p.app, p.baseBundleId) }

  datatype Status = Created | Success | BadRequest | NotFound | ServerError

  // ----- statements -----

  /** The two CHECK constraints of the bundle table. */
  predicate ChecksHold(b: BundleRow) {
    (b.targetAppVersion.Some? || b.fingerprintHash.Some?) && 0 <= b.rolloutCohortCount <= 1000
  }

  /** A row as it is written over an existing one, which keeps the spelling of its key. */
  function Over(b: BundleRow, stored: BundleRow): BundleRow {
    b.(app := stored.app, id := stored.id)
  }

  /** `INSERT ... ON DUPLICATE KEY UPDATE`. */
  function Upsert(db: Db, b: BundleRow): Result<Db, Status> {
    var k := KeyOf(b.app, b.id);
    if !ChecksHold(b) then Err(ServerError)
    else Ok(db.(bundles := db.bundles[k := if k in db.bundles then Over(b, db.bundles[k]) else b]))
  }

  /** `DELETE FROM bundle_patches WHERE app_name = ? AND bundle_id = ?`. */
  function DeletePatches(db: Db, k: Key): Db {
    db.(patches := Without(db.patches, k))
  }

  function Without(patches: map<Key, PatchRow>, k: Key): map<Key, PatchRow> {
    map p | p in patches && Owner(patches[p]) != k :: patches[p]
  }

  /** `INSERT INTO bundle_patches`: fails on a taken key and on a foreign key without its bundle. */
  function InsertPatch(db: Db, p: PatchRow): Result<Db, Status> {
    var k := KeyOf(p.app, p.id);
    if k in db.patches || Owner(p) !in db.bundles || Base(p) !in db.bundles then Err(ServerError)
    else Ok(db.(patches := db.patches[k := p]))
  }

  /** `DELETE FROM bundles`, cascading through both foreign keys. */
  function DeleteBundle(db: Db, k: Key): Db {
    Db(db.bundles - {k}, Cascade(db.patches, k))
  }

  function Cascade(patches: map<Key, PatchRow>, k: Key): map<Key, PatchRow> {
    map p | p in patches && Owner(patches[p]) != k && Base(patches[p]) != k :: patches[p]
  }

  // ----- patch lists in requests -----

  datatype CliPatch = CliPatch(baseBundleId: string, baseFileHash: string, patchFileHash: string, patchStorageUri: string)

  function StringField(item: Json, key: string): Option<string> {
    match item
    case Object(f) => if key in f && f[key].String? then Some(f[key].s) else None
    case _ => None
  }

  /** An entry counts only if all four fields are strings. */
  function ReadPatch(item: Json): Option<CliPatch> {
    var base, baseHash := StringField(item, "baseBundleId"), StringField(item, "baseFileHash");
    var hash, uri := StringField(item, "patchFileHash"), StringField(item, "patchStorageUri");
    if base.Some? && baseHash.Some? && hash.Some? && uri.Some?
    then Some(CliPatch(base.value, baseHash.value, hash.value, uri.value))
    else None
  }

  predicate SameBase(p: CliPatch, q: CliPatch) {
    Fold(p.baseBundleId) == Fold(q.baseBundleId)
  }

  /** The well-formed entries, the first for each base. */
  function FirstPerBase(items: seq<Json>): seq<CliPatch> {
    if items == [] then []
    else
      var front, last := FirstPerBase(items[..|items| - 1]), ReadPatch(items[|items| - 1]);
      if last.Some? && !exists p :: p in front && SameBase(p, last.value) then front + [last.value] else front
  }

  function PatchesOf(patches: Option<Json>): seq<CliPatch> {
    match patches
    case Some(Array(items)) => FirstPerBase(items)
    case _ => []
  }

  // ----- validation -----

  function Utf8Length(s: string): nat {
    if s == "" then 0
    else
      var c := s[|s| - 1] as int;
      Utf8Length(s[..|s| - 1]) + (if c < 0x80 then 1 else if c < 0x800 then 2 else if c < 0x1_0000 then 3 else 4)
  }

  predicate TextFits(s: string) {
    Utf8Length(s) <= 65535
  }

  predicate OptionalTextFits(s: Option<string>) {
    s.Some? ==> TextFits(s.value)
  }

  predicate IdChar(c: char) {
    'a' <= c <= 'z' || 'A' <= c <= 'Z' || IsDigit(c) || c == '-' || c == '_'
  }

  predicate ValidId(id: string) {
    0 < |id| <= 36 && forall c :: c in id ==> IdChar(c)
  }

  predicate ValidPatch(p: CliPatch) {
    ValidId(p.baseBundleId) && TextFits(p.baseFileHash) && TextFits(p.patchFileHash) && TextFits(p.patchStorageUri)
  }

  predicate CohortsFit(cohorts: Option<seq<string>>) {
    cohorts.Some? ==> |cohorts.value| <= 1000
  }

  predicate NonBlank(s: Option<string>) {
    s.Some? && Trim(s.value) != ""
  }

  predicate PersistenceConstraints(
    version: Option<string>, fingerprint: Option<string>, rollout: int, cohorts: Option<seq<string>>)
  {
    && (NonBlank(version) || NonBlank(fingerprint))
    && 0 <= rollout <= 1000
    && (cohorts.Some? ==> forall c :: c in cohorts.value ==> IsValidCohort(c))
  }

  // ----- POST -----

  datatype CliBundle = CliBundle(
    id: string, platform: string, shouldForceUpdate: Option<bool>, enabled: Option<bool>, fileHash: string,
    gitCommitHash: Option<string>, message: Option<string>, channel: Option<string>, storageUri: string,
    targetAppVersion: Option<string>, fingerprintHash: Option<string>, metadata: Option<Json>,
    rolloutCohortCount: Option<int>, targetCohorts: Option<seq<string>>, manifestStorageUri: Option<string>,
    manifestFileHash: Option<string>, assetBaseStorageUri: Option<string>, patches: Option<Json>)

  function GetOr<T>(o: Option<T>, default: T): T {
    if o.Some? then o.value else default
  }

  predicate ValidBundle(b: CliBundle) {
    && ValidId(b.id)
    && TextFits(b.platform) && TextFits(b.fileHash) && TextFits(b.storageUri)
    && OptionalTextFits(b.gitCommitHash) && OptionalTextFits(b.message) && OptionalTextFits(b.channel)
    && OptionalTextFits(b.targetAppVersion) && OptionalTextFits(b.fingerprintHash)
    && OptionalTextFits(b.manifestStorageUri) && OptionalTextFits(b.manifestFileHash) && OptionalTextFits(b.assetBaseStorageUri)
    && CohortsFit(b.targetCohorts)
    && (forall p :: p in PatchesOf(b.patches) ==> ValidPatch(p))
    && PersistenceConstraints(b.targetAppVersion, b.fingerprintHash, GetOr(b.rolloutCohortCount, 1000), b.targetCohorts)
  }

  function RowOf(app: string, b: CliBundle): BundleRow {
    BundleRow(app, b.id, b.platform, GetOr(b.shouldForceUpdate, false), GetOr(b.enabled, true), b.fileHash,
              b.gitCommitHash, b.message, GetOr(b.channel, "production"), b.storageUri,
              b.targetAppVersion, b.fingerprintHash, Some(GetOr(b.metadata, Object(map[]))),
              GetOr(b.rolloutCohortCount, 1000),
              if b.targetCohorts.Some? then Some(CohortsToJson(b.targetCohorts.value)) else None,
              b.manifestStorageUri, b.manifestFileHash, b.assetBaseStorageUri)
  }

  function PatchRowOf(app: string, bundleId: string, p: CliPatch, index: nat): PatchRow {
    PatchRow(app, bundleId + ":" + p.baseBundleId, bundleId, p.baseBundleId,
             p.baseFileHash, p.patchFileHash, p.patchStorageUri, index)
  }

  /** Inserts the first n patches; a base the app does not have is the caller's mistake. */
  function InsertPatches(db: Db, app: string, bundleId: string, patches: seq<CliPatch>, n: nat): Result<Db, Status>
    requires n <= |patches|
  {
    if n == 0 then Ok(db)
    else
      match InsertPatches(db, app, bundleId, patches, n - 1)
      case Err(s) => Err(s)
      case Ok(d) =>
        var p := patches[n - 1];
        if KeyOf(app, p.baseBundleId) !in d.bundles then Err(BadRequest)
        else InsertPatch(d, PatchRowOf(app, bundleId, p, n - 1))
  }

  function ReplacePatches(db: Db, app: string, bundleId: string, patches: seq<CliPatch>): Result<Db, Status> {
    InsertPatches(DeletePatches(db, KeyOf(app, bundleId)), app, bundleId, patches, |patches|)
  }

  function SaveBundle(db: Db, app: string, b: CliBundle): Result<Db, Status> {
    match Upsert(db, RowOf(app, b))
    case Err(s) => Err(s)
    case Ok(d) => ReplacePatches(d, app, b.id, PatchesOf(b.patches))
  }

  function SaveBundles(db: Db, app: string, body: seq<CliBundle>, n: nat): Result<Db, Status>
    requires n <= |body|
  {
    if n == 0 then Ok(db)
    else
      match SaveBundles(db, app, body, n - 1)
      case Err(s) => Err(s)
      case Ok(d) => SaveBundle(d, app, body[n - 1])
  }

  /** A transaction either commits as a whole or leaves the tables alone. */
  function Commit(db: Db, done: Result<Db, Status>, ok: Status): (Status, Db) {
    match done
    case Ok(d) => (ok, d)
    case Err(s) => (s, db)
  }

  function Create(db: Db, app: string, body: seq<CliBundle>): (Status, Db) {
    if |body| > 1000 || !(forall b :: b in body ==> ValidBundle(b)) then (BadRequest, db)
    else Commit(db, SaveBundles(db, app, body, |body|), Created)
  }

  // ----- PATCH -----

  /** A field of a PATCH body: absent, or present with a value or an explicit null. */
  datatype Field<T> = Absent | Given(value: Option<T>)

  datatype Payload = Payload(
    platform: Field<string>, shouldForceUpdate: Field<bool>, enabled: Field<bool>, fileHash: Field<string>,
    gitCommitHash: Field<string>, message: Field<string>, channel: Field<string>, storageUri: Field<string>,
    targetAppVersion: Field<string>, fingerprintHash: Field<string>, metadata: Field<Json>,
    rolloutCohortCount: Field<int>, targetCohorts: Field<seq<string>>, manifestStorageUri: Field<string>,
    manifestFileHash: Field<string>, assetBaseStorageUri: Field<string>, patches: Field<Json>)

  predicate FieldFits(f: Field<string>) {
    f.Given? ==> OptionalTextFits(f.value)
  }

  predicate NotNull<T>(f: Field<T>) {
    f != Given(None)
  }

  predicate ValidPayload(p: Payload) {
    && FieldFits(p.platform) && FieldFits(p.fileHash) && FieldFits(p.storageUri) && FieldFits(p.gitCommitHash)
    && FieldFits(p.message) && FieldFits(p.channel) && FieldFits(p.targetAppVersion) && FieldFits(p.fingerprintHash)
    && FieldFits(p.manifestStorageUri) && FieldFits(p.manifestFileHash) && FieldFits(p.assetBaseStorageUri)
    && (p.targetCohorts.Given? ==> CohortsFit(p.targetCohorts.value))
    && NoForbiddenNull(p)
  }

  /** The six columns that are NOT NULL are not sent as null. */
  predicate NoForbiddenNull(p: Payload) {
    && NotNull(p.platform) && NotNull(p.shouldForceUpdate) && NotNull(p.enabled)
    && NotNull(p.fileHash) && NotNull(p.channel) && NotNull(p.storageUri)
  }

  /** A column that may be cleared. */
  function Nullable<T>(f: Field<T>, stored: Option<T>): Option<T> {
    match f
    case Absent => stored
    case Given(v) => v
  }

  /** A column that may not; validation has refused an explicit null. */
  function Required<T>(f: Field<T>, stored: T): T {
    match f
    case Given(Some(v)) => v
    case _ => stored
  }

  /** The reader of JSON text is a parameter. */
  function MergedMetadata(f: Field<Json>, stored: Option<Json>, fromText: string -> Option<Json>): Option<Json> {
    match f
    case Absent => stored
    case Given(None) => Some(Object(map[]))
    case Given(Some(patch)) => Some(PatchedMetadata(stored, patch, fromText))
  }

  function MergedRollout(f: Field<int>, stored: int): int {
    match f
    case Absent => stored
    case Given(v) => GetOr(v, 1000)
  }

  function MergedCohorts(f: Field<seq<string>>, stored: Option<Json>): Option<Json> {
    match f
    case Absent => stored
    case Given(None) => Some(Null)
    case Given(Some(cohorts)) => Some(CohortsToJson(cohorts))
  }

  /** The row after `UPDATE bundles SET ...`. */
  function UpdatedRow(b: BundleRow, p: Payload, fromText: string -> Option<Json>): BundleRow {
    b.(platform := Required(p.platform, b.platform),
       shouldForceUpdate := Required(p.shouldForceUpdate, b.shouldForceUpdate),
       enabled := Required(p.enabled, b.enabled),
       fileHash := Required(p.fileHash, b.fileHash),
       channel := Required(p.channel, b.channel),
       storageUri := Required(p.storageUri, b.storageUri),
       gitCommitHash := Nullable(p.gitCommitHash, b.gitCommitHash),
       message := Nullable(p.message, b.message),
       targetAppVersion := Nullable(p.targetAppVersion, b.targetAppVersion),
       fingerprintHash := Nullable(p.fingerprintHash, b.fingerprintHash),
       manifestStorageUri := Nullable(p.manifestStorageUri, b.manifestStorageUri),
       manifestFileHash := Nullable(p.manifestFileHash, b.manifestFileHash),
       assetBaseStorageUri := Nullable(p.assetBaseStorageUri, b.assetBaseStorageUri),
       targetCohorts := MergedCohorts(p.targetCohorts, b.targetCohorts),
       rolloutCohortCount := MergedRollout(p.rolloutCohortCount, b.rolloutCohortCount),
       metadata := MergedMetadata(p.metadata, b.metadata, fromText))
  }

  /** Whether the UPDATE statement would set any column at all. */
  predicate SetsColumns(p: Payload) {
    || p.platform.Given? || p.shouldForceUpdate.Given? || p.enabled.Given? || p.fileHash.Given?
    || p.gitCommitHash.Given? || p.message.Given? || p.channel.Given? || p.storageUri.Given?
    || p.targetAppVersion.Given? || p.fingerprintHash.Given? || p.metadata.Given? || p.rolloutCohortCount.Given?
    || p.targetCohorts.Given? || p.manifestStorageUri.Given? || p.manifestFileHash.Given? || p.assetBaseStorageUri.Given?
  }

  function MergedCohortList(f: Field<seq<string>>, stored: Option<Json>, fromText: string -> Option<Json>): Option<seq<string>> {
    match f
    case Absent => ParseTargetCohorts(stored, fromText)
    case Given(v) => v
  }

  /** The merged row must satisfy the same constraints as a new one, and replacement patches the same checks. */
  predicate Acceptable(b: BundleRow, p: Payload, fromText: string -> Option<Json>) {
    var u := UpdatedRow(b, p, fromText);
    && PersistenceConstraints(u.targetAppVersion, u.fingerprintHash, u.rolloutCohortCount,
                              MergedCohortList(p.targetCohorts, b.targetCohorts, fromText))
    && (p.patches.Given? ==> forall x :: x in PatchesOf(p.patches.value) ==> ValidPatch(x))
  }

  /** `UPDATE bundles SET ... WHERE app_name = ? AND id = ?`, left out when no column is set. */
  function UpdateColumns(db: Db, k: Key, p: Payload, fromText: string -> Option<Json>): Result<Db, Status>
    requires k in db.bundles
  {
    var b := UpdatedRow(db.bundles[k], p, fromText);
    if !SetsColumns(p) then Ok(db)
    else if !ChecksHold(b) then Err(ServerError)
    else Ok(db.(bundles := db.bundles[k := b]))
  }

  /** The two writes of a PATCH: the columns, then the replacement of the patches if a list was sent. */
  function WriteUpdate(db: Db, app: string, id: string, p: Payload, fromText: string -> Option<Json>): Result<Db, Status>
    requires KeyOf(app, id) in db.bundles
  {
    match UpdateColumns(db, KeyOf(app, id), p, fromText)
    case Err(s) => Err(s)
    case Ok(d) => if p.patches.Given? then ReplacePatches(d, app, id, PatchesOf(p.patches.value)) else Ok(d)
  }

  function Update(db: Db, app: string, id: string, p: Payload, fromText: string -> Option<Json>): (Status, Db) {
    var k := KeyOf(app, id);
    if !ValidPayload(p) then (BadRequest, db)
    else if k !in db.bundles then (NotFound, db)
    else if !Acceptable(db.bundles[k], p, fromText) then (BadRequest, db)
    else Commit(db, WriteUpdate(db, app, id, p, fromText), Success)
  }

  // ----- DELETE -----

  /** Deleting what is not there succeeds too. */
  function Delete(db: Db, app: string, id: string): (Status, Db) {
    (Success, DeleteBundle(db, KeyOf(app, id)))
  }
}
