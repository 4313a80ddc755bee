/**
  * The package record (one row per package version) and the two store lookups the controller
  * issues on it: `where(package_id, version)->first()` and
  * `where(package_id)[->where(is_prerelease, false)]->orderBy(created_at, desc)->first()`.
  */
module NugetPackage {
  import opened Wrappers

  /** One package version as stored. Columns that may be NULL are modelled as strings, so a
    * NULL text column reads as the empty string: in the search's substring test (which both
    * fail for every non-empty term) and as a property value given to `castType`. */
  datatype Package = Package(
    packageId: string,
    version: string,
    isPrerelease: bool,
    createdAt: int,
    downloadCount: nat,
    versionDownloadCount: nat,
    title: string,
    description: string,
    summary: string,
    tags: string,
    authors: string)

  /** A property value before and after the query builder's cast. */
  datatype Value = Null | Str(s: string) | Int(i: int) | Bool(b: bool)

  /** The column names of the package table. */
  const Columns: set<string> := {"package_id", "version", "is_prerelease", "created_at", "download_count",
                                 "version_download_count", "title", "description", "summary", "tags", "authors"}

  /** `$package->$field`: the named column, or null for a name that is not a column. */
  function Attribute(p: Package, field: string): (v: Value)
    ensures v.Null? <==> field !in Columns
  {
    match field
    case "package_id" => Str(p.packageId)
    case "version" => Str(p.version)
    case "is_prerelease" => Bool(p.isPrerelease)
    case "created_at" => Int(p.createdAt)
    case "download_count" => Int(p.downloadCount)
    case "version_download_count" => Int(p.versionDownloadCount)
    case "title" => Str(p.title)
    case "description" => Str(p.description)
    case "summary" => Str(p.summary)
    case "tags" => Str(p.tags)
    case "authors" => Str(p.authors)
    case _ => Null
  }

  predicate IsVersion(p: Package, id: string, version: string) {
    p.packageId == id && p.version == version
  }

  /** `where('package_id', $id)->where('version', $version)->first()`, with the rows in the
    * store's natural order: the index of the first matching row, or None when no row matches. */
  function FindFirst(rows: seq<Package>, id: string, version: string): (k: Option<nat>)
    ensures k.None? ==> forall j :: 0 <= j < |rows| ==> !IsVersion(rows[j], id, version)
    ensures k.Some? ==> k.value < |rows| && IsVersion(rows[k.value], id, version)
    ensures k.Some? ==> forall j :: 0 <= j < k.value ==> !IsVersion(rows[j], id, version)
    decreases |rows|
  {
    if rows == [] then None
    else if IsVersion(rows[0], id, version) then Some(0)
    else
      match FindFirst(rows[1..], id, version)
      case None => None
      case Some(k) => Some(k + 1)
  }

  /** A row the update query considers: same package id and, unless prerelease versions are
    * included, not a prerelease. */
  predicate Qualifies(p: Package, id: string, includePrerelease: bool) {
    p.packageId == id && (includePrerelease || !p.isPrerelease)
  }

  /** `p` is a qualifying row with the greatest `created_at` among the qualifying rows. */
  ghost predicate IsLatest(rows: seq<Package>, id: string, includePrerelease: bool, p: Package) {
    p in rows && Qualifies(p, id, includePrerelease)
    && forall q :: q in rows && Qualifies(q, id, includePrerelease) ==> q.createdAt <= p.createdAt
  }

  /** What `orderBy('created_at', 'desc')->first()` may return: null exactly when no row
    * qualifies, otherwise some row of greatest `created_at` (the store picks among ties). */
  ghost predicate IsLatestLookup(rows: seq<Package>, id: string, includePrerelease: bool, r: Option<Package>) {
    match r
    case None => forall q :: q in rows ==> !Qualifies(q, id, includePrerelease)
    case Some(p) => IsLatest(rows, id, includePrerelease, p)
  }

  /** The latest-version lookup of the update query. Its contract promises only what the store
    * promises: some qualifying row of greatest `created_at`, or None when nothing qualifies. */
  function Latest(rows: seq<Package>, id: string, includePrerelease: bool): (r: Option<Package>)
    ensures IsLatestLookup(rows, id, includePrerelease, r)
    decreases |rows|
  {
    if rows == [] then None
    else
      var rest := Latest(rows[1..], id, includePrerelease);
      assert forall q :: q in rows ==> q == rows[0] || q in rows[1..];
      if !Qualifies(rows[0], id, includePrerelease) then rest
      else if rest.Some? && rest.value.createdAt > rows[0].createdAt then rest
      else Some(rows[0])
  }

  /** Any two answers the store may give agree on whether a row qualifies and on its `created_at`. */
  lemma LatestDeterminedUpToTies(rows: seq<Package>, id: string, includePrerelease: bool, a: Option<Package>, b: Option<Package>)
    requires IsLatestLookup(rows, id, includePrerelease, a)
    requires IsLatestLookup(rows, id, includePrerelease, b)
    ensures a.None? <==> b.None?
    ensures a.Some? ==> a.value.createdAt == b.value.createdAt
  {
  }

  /** When no two distinct qualifying rows share a `created_at`, the answer is unique. */
  lemma LatestUniqueWithoutTies(rows: seq<Package>, id: string, includePrerelease: bool, a: Option<Package>, b: Option<Package>)
    requires forall p, q ::
               (p in rows && q in rows && Qualifies(p, id, includePrerelease) && Qualifies(q, id, includePrerelease)
                && p.createdAt == q.createdAt) ==> p == q
    requires IsLatestLookup(rows, id, includePrerelease, a)
    requires IsLatestLookup(rows, id, includePrerelease, b)
    ensures a == b
  {
    LatestDeterminedUpToTies(rows, id, includePrerelease, a, b);
  }
}
