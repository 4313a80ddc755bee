# LaGet NuGet V2 feed controller, modelled in Dafny

LaGet is a NuGet package server. This project models its feed controller,
`app/Http/Controllers/ApiController.php`. That controller:

- answers the `GetUpdates` call of NuGet clients;
- counts downloads;
- builds the search query and picks the feed count;
- applies `$select` to the properties of each feed entry;
- formats the OData error documents.

The model is split into modules that follow the program's structure:

- `Wrappers`: `Option` and `Result`.
- `PhpBuiltins`: the PHP functions the controller depends on. These are
  `trim` with an explicit character list, `explode` and `implode`, `empty()`
  on a string, and `array_filter`.
- `HttpInput`: the request as a map of query-string parameters.
  - `Input::get($key)` returns the value or null.
  - `Input::has($key)` is taken as Laravel 5.0 to 5.4 define it: the
    parameter is present and not blank after the default `trim`. From
    Laravel 5.5 on, `has` tests presence only. Under that reading a blank
    `$select=` would select no property instead of all of them.
  - `=== 'true'` is a strict comparison.
- `NugetPackage`: the package row and the two store lookups.
  - `where(...)->first()` is taken as the first matching row in table order;
    SQL itself leaves that row unspecified (see "## Left out").
  - `orderBy('created_at', 'desc')->first()` is specified by what the store
    promises: some qualifying row with the greatest `created_at`, or null.
    The model does not fix which row wins a tie.
- `NugetQueryBuilder`: the query builder the controller receives.
  - The mapping table and the property list are data.
  - Translating `$filter`/`$orderby`, applying `$top`/`$skip` and
    `castType` are function-valued fields, so every proof holds whatever
    they do.
  - A query is one predicate over rows plus an ordering. `->where(c)` and-s
    `c` to that predicate: the clauses the builder makes from `$filter` and
    `$id` are taken to form one group (see "## Left out").
  - Paging is only trusted as far as `PagesSoundly` says: `order` rearranges
    the rows it is given, and `limit` returns only rows it is given.
- `Atom`: the documents as values. A feed holds entries, an entry holds
  typed properties, and an error document holds message, language and
  status.
- `ApiController`: the operations and what is proved about them.
- `ApiScenarios`: properties on concrete requests and tables.

How each part is modelled:

- `download` writes to the store one row at a time. It is therefore a method
  on an `array` of rows that `modifies` the array. It is proved against the
  function `DownloadSpec`.
- `updates` is a loop. `displayPackages` and `addPackagePropertiesToAtomElement`
  are loops too. All three are methods with loop invariants. They are proved
  against specification functions and predicates (`Emitted`,
  `EntryProperties`, `DisplaysPackages`).
- The search predicate, the counts, `$select` and the error documents are
  pure functions.

How the code behaves at the points where it is easy to misread:

- **Trim set at line 328.** The character list for the search term is a
  single-quoted PHP string. In such a string only `\'` is an escape. So the
  stripped set is the quote, space, backslash and the letters `t n r x B`
  and digit `0`. Tab and newline are not in it.
  - `'foo bar'` becomes `foo ba`, which also matches a title `foo baz`.
  - `\tjson` becomes `\tjso`.
  - The model keeps this set as written: `QuotedTermLosesFinalR` and
    `TabbedTermKeepsTab` show its effect.
  - The `id` list at line 181 is double-quoted, so there it means real
    whitespace.
- **Download counters.** Despite the column names, `version_download_count`
  goes up on the served row only, and `download_count` on every row of that
  package id.
- **Carried-over `$value`.** In `addPackagePropertiesToAtomElement`, `$value`
  is a local variable of the whole loop.
  - A mapping with neither `function` nor `field` reuses the `$value` left by
    the previous property.
  - When no earlier property assigned it, line 280 reads an undefined
    variable. PHP reports that, and Laravel's error handler turns it into an
    exception that ends the request.
  - The model carries `$value` as an `Option` that starts undefined.
    `EntryProperties` fails, naming the property, exactly when the first
    selected property has no accessor (`EntryPropertiesFailIff`).
  - A feed fails at that property as soon as it has an entry to fill
    (`DisplaysPackages`).
- **`empty()` on the search term.** `empty("0")` is true in PHP. The trimmed
  term can never be `"0"`, because `0` is in the trim set. So the `LIKE`
  group is added exactly when the trimmed term is non-empty
  (`TrimmedTermEmptyIffBlank`).

## Model

| member | source | states |
|---|---|---|
| PhpBuiltins.Trim | app/Http/Controllers/ApiController.php:328 | the result is a slice of the input; every character cut before or after it is in the list; the result neither starts nor ends with a listed character |
| PhpBuiltins.TrimEmptyIffAllTrimmed | app/Http/Controllers/ApiController.php:335 | trimming gives "" exactly when every character of the input is in the list |
| PhpBuiltins.TrimUnwraps | app/Http/Controllers/ApiController.php:199 | a value wrapped in one quote on each side trims back to the bare value |
| PhpBuiltins.TrimIsIdentityIff | app/Http/Controllers/ApiController.php:328 | trimming changes nothing exactly when the string neither starts nor ends with a listed character (both directions) |
| PhpBuiltins.TrimIdempotent | app/Http/Controllers/ApiController.php:328 | trimming twice is trimming once |
| PhpBuiltins.Explode | app/Http/Controllers/ApiController.php:199-200 | at least one part; one more part than delimiters; no part holds the delimiter; imploding the parts gives back the input |
| PhpBuiltins.ExplodeWithoutDelimiter | app/Http/Controllers/ApiController.php:199 | a string without the delimiter explodes to itself alone |
| PhpBuiltins.ExplodeSplitsAtDelimiter | app/Http/Controllers/ApiController.php:199 | the text before the first delimiter is the first part, and the rest explodes on its own |
| PhpBuiltins.ImplodeAppend | app/Http/Controllers/ApiController.php:298 | imploding a concatenation of two non-empty lists is imploding each and joining with the delimiter |
| PhpBuiltins.ExplodeConcat | app/Http/Controllers/ApiController.php:298 | exploding `x`, delimiter, `y` gives the parts of `x` followed by the parts of `y` |
| PhpBuiltins.ExplodeImplode | app/Http/Controllers/ApiController.php:199-200 | explode inverts implode on parts without the delimiter |
| PhpBuiltins.ArrayFilter | app/Http/Controllers/ApiController.php:298-301 | every kept element is in the input and passes the test; every passing element is kept |
| PhpBuiltins.ArrayFilterAppend | app/Http/Controllers/ApiController.php:298-301 | filtering distributes over concatenation, so the order is kept |
| PhpBuiltins.ArrayFilterMultiplicity | app/Http/Controllers/ApiController.php:298-301 | a passing element is kept as often as it occurs, a failing one never |
| HttpInput.Has | app/Http/Controllers/ApiController.php:297 | true exactly when the parameter is present and holds a character outside PHP's default trim list (Laravel 5.0 to 5.4) |
| HttpInput.IsTrue | app/Http/Controllers/ApiController.php:330 | the strict `=== 'true'`: only the exact string `true` |
| PhpBuiltins.IsEmpty | app/Http/Controllers/ApiController.php:335 | PHP `empty()` on a string: true for "" and "0" only |
| HttpInput.Get | app/Http/Controllers/ApiController.php:201 | `Input::get($key)`: a value exactly when the parameter is present, and then the sent string |
| HttpInput.GetOr | app/Http/Controllers/ApiController.php:328 | `Input::get($key, $default)`: the sent string when present, else the default |
| NugetPackage.Attribute | app/Http/Controllers/ApiController.php:273-277 | a column's value, typed; null exactly for a name that is not a column |
| NugetPackage.FindFirst | app/Http/Controllers/ApiController.php:85-87 | None exactly when no row has the id and version; otherwise the index of the first such row |
| NugetPackage.Latest | app/Http/Controllers/ApiController.php:216-222 | null exactly when no row of the id qualifies (prereleases only when included); otherwise a qualifying row whose `created_at` is the greatest |
| NugetPackage.LatestDeterminedUpToTies | app/Http/Controllers/ApiController.php:221-222 | any two answers the store may give agree on null-ness and on `created_at` |
| NugetPackage.LatestUniqueWithoutTies | app/Http/Controllers/ApiController.php:221-222 | with no two qualifying rows sharing a `created_at`, the answer is unique |
| NugetQueryBuilder.QueryBuilder.BaseQuery | app/Http/Controllers/ApiController.php:333 | `query($filter, $orderby, $id)`: a row qualifies exactly when the builder's `where` clauses for `$filter` and `$id` hold; the order is `$orderby` |
| NugetQueryBuilder.QueryBuilder.IsProperty | app/Http/Controllers/ApiController.php:259 | `isProperty($name)` is membership in the property mapping table (no contract: it is the definition); a name outside the table behaves like a mapping without accessor |
| NugetQueryBuilder.QueryBuilder.PropertyTest | app/Http/Controllers/ApiController.php:298-301 | the `array_filter` callback holds exactly for the names `isProperty` accepts |
| NugetQueryBuilder.QueryBuilder.Page | app/Http/Controllers/ApiController.php:130 | `limit($eloquent, $top, $skip)->get()` applied to the selected rows in `$orderby` order; when the builder pages soundly, every row of the page is a table row the query selects |
| NugetQueryBuilder.Query.Where | app/Http/Controllers/ApiController.php:349 | `->where(...)` keeps the order and and-s one more clause to those already there |
| NugetQueryBuilder.WhereNarrows | app/Http/Controllers/ApiController.php:337-349 | the rows of a query with one more clause are the rows of the query that also meet the clause, in table order |
| NugetQueryBuilder.Query.Matching | app/Http/Controllers/ApiController.php:130 | a row is selected exactly when it is in the table and meets every clause |
| NugetQueryBuilder.Query.Count | app/Http/Controllers/ApiController.php:116 | `->count()` is at most the number of rows, and zero exactly when no row meets the clauses |
| ApiController.GenerateError | app/Http/Controllers/ApiController.php:232-243 | the document carries the given message, language and status |
| ApiController.ErrorDocumentsDistinct | app/Http/Controllers/ApiController.php:208 | the version-count error is not a not-found error for any segment |
| ApiController.ResourceNotFoundError | app/Http/Controllers/ApiController.php:245-248 | status 404 and language en-US; the segment name can be recovered from the message |
| ApiController.NotFoundMessageRoundTrip | app/Http/Controllers/ApiController.php:247 | every message of the not-found shape is the message of the error for the segment it names |
| ApiController.VersionCountError | app/Http/Controllers/ApiController.php:208 | the message `Invalid version count`, language `eu-US`, status 301 |
| ApiController.SearchTerm | app/Http/Controllers/ApiController.php:328 | "" when the parameter is absent; otherwise the parameter with only listed characters cut at either end, and neither end is listed |
| ApiController.TrimmedTermEmptyIffBlank | app/Http/Controllers/ApiController.php:328-335 | `empty()` on the trimmed term holds exactly when the term is "" (it is never "0") |
| ApiController.Contains | app/Http/Controllers/ApiController.php:339-344 | `LIKE '%term%'` as a substring test; the empty term is contained in every string |
| ApiController.ContainsIffSlice | app/Http/Controllers/ApiController.php:339-344 | `Contains` holds exactly when some slice of the column is the term |
| ApiController.MatchesTerm | app/Http/Controllers/ApiController.php:337-345 | the OR of the six `LIKE` clauses: one of `package_id`, `title`, `description`, `summary`, `tags`, `authors` contains the term; the empty term matches every row |
| ApiController.PassesSearch | app/Http/Controllers/ApiController.php:324-353 | the reference search condition that `ProcessSearchQuery` is proved against: the `$filter` clauses, the term empty or matched, and the prerelease gate (no contract: it is the definition) |
| ApiController.ProcessSearchQuery | app/Http/Controllers/ApiController.php:324-353 | a row passes the query exactly when the `$filter` clause holds, the term is empty or one of the six text columns contains it, and the row is not a prerelease unless `includePrerelease` is exactly "true"; the order is `$orderby` |
| ApiController.SearchSelectsPassingRows | app/Http/Controllers/ApiController.php:324-353 | the rows the search selects are the rows meeting that condition, in table order |
| ApiController.SearchAction | app/Http/Controllers/ApiController.php:111-120 | an answer exactly for `count` and `$count`; that answer is the number of rows meeting the search condition |
| ApiController.WantsAllPagesCount | app/Http/Controllers/ApiController.php:132-133 | the count over all pages is asked for exactly when `$inlinecount` is the string `allpages` |
| ApiController.SelectedProperties | app/Http/Controllers/ApiController.php:297-302 | with a non-blank `$select`, only property names; otherwise all properties in their own order |
| ApiController.SelectedPropertiesMultiplicity | app/Http/Controllers/ApiController.php:297-302 | with `$select`, each property name is emitted as often as it is listed, and a non-property never |
| ApiController.SelectedPropertiesKeepOrder | app/Http/Controllers/ApiController.php:297-302 | for `$select=x,y`, the selection is that of `x` followed by that of `y` |
| ApiController.Resolve | app/Http/Controllers/ApiController.php:266-278 | an accessor method wins over a column; a column gives its value; with neither, `$value` keeps what it held before; `$value` is defined afterwards exactly when there was an accessor or it was defined before |
| ApiController.PropertyTrail | app/Http/Controllers/ApiController.php:257-282 | the loop as a value: without failure at most one property per name, each named by a listed property name; a failure names a listed property without accessor |
| ApiController.EntryProperties | app/Http/Controllers/ApiController.php:255-283 | success gives at most one property per name, each a listed property name; failure names a listed property without accessor |
| ApiController.UnresolvedProperty | app/Http/Controllers/ApiController.php:280 | when it finds a property, that property is listed, is a property and has no accessor; with no property listed it finds none |
| ApiController.LastResolved | app/Http/Controllers/ApiController.php:266-278 | undefined exactly when no listed property has an accessor |
| ApiController.TrailCarriesLastResolved | app/Http/Controllers/ApiController.php:266-278 | while the loop has not failed, `$value` holds the value resolved by the last name with an accessor (undefined when none) |
| ApiController.UndefinedPersists | app/Http/Controllers/ApiController.php:280 | once `$value` was read undefined, the later names change nothing: the request has ended |
| ApiController.TrailIgnoresNonProperties | app/Http/Controllers/ApiController.php:257-262 | names that are not properties leave the emitted properties and `$value` untouched |
| ApiController.KeptTrailUndefinedIff | app/Http/Controllers/ApiController.php:264-281 | on property names, the loop fails exactly when the first has no accessor, at that name; otherwise `$value` is defined from the first name on |
| ApiController.EntryPropertiesFailIff | app/Http/Controllers/ApiController.php:255-283 | an entry fails exactly when `UnresolvedProperty` finds the first selected property without accessor, and it names that property |
| ApiController.EntryPropertyOfKeptName | app/Http/Controllers/ApiController.php:264-281 | on property names that do not fail, the i-th emitted property is the i-th name, with its type tag and the cast of its resolved value |
| ApiController.EntryPropertiesMeaning | app/Http/Controllers/ApiController.php:255-283 | fails at the first selected property exactly when it has no accessor; otherwise one property per selected name, in order, with its type tag, and the value cast from the accessor method's result, else the column, else the value of the nearest earlier name with an accessor |
| ApiController.AddPackageProperties | app/Http/Controllers/ApiController.php:255-283 | the loop emits exactly the properties `EntryProperties` describes, or stops at the same property |
| ApiController.DisplayPackages | app/Http/Controllers/ApiController.php:295-317 | the failure at the unresolved property when there is an entry to fill; otherwise a feed with the given id, title, time and count and one self link, and one entry per package, in order, each with the selected properties |
| ApiController.SearchNoAction | app/Http/Controllers/ApiController.php:127-136 | `displayPackages` of the page of the search query, with id = route, title `Search`, the given time, and the count over all pages when `$inlinecount=allpages`, else the page length; with a builder that pages soundly, every entry is a table row passing the search condition |
| ApiController.Packages | app/Http/Controllers/ApiController.php:179-189 | the same, titled `Packages`, for the base query with the `id` trimmed of quote and whitespace; with a builder that pages soundly, every entry is a table row meeting the builder's `$filter`/`id` clauses |
| ApiController.PackageMetadata | app/Http/Controllers/ApiController.php:156-172 | the not-found error for segment `Packages` when no row matches; otherwise the failure at an unresolved property, or the first matching row with all properties |
| ApiController.UpdateList | app/Http/Controllers/ApiController.php:199-200 | at least one part, none holding the delimiter, and joined they give the parameter without its surrounding quotes |
| ApiController.Emitted | app/Http/Controllers/ApiController.php:212-227 | no more records than pairs; every record is the answer of some pair whose answer is an update |
| ApiController.ReportedPairs | app/Http/Controllers/ApiController.php:223-226 | the positions reported are increasing and are exactly the pairs whose lookup found a record with a different version |
| ApiController.EmittedFollowsReportedPairs | app/Http/Controllers/ApiController.php:212-227 | the k-th reported record is the lookup answer for the k-th reported pair |
| ApiController.UpdatesAreLatestAndNew | app/Http/Controllers/ApiController.php:213-227 | each reported record is a latest qualifying record of its pair's id, with a version different from the installed one; an id with no qualifying row is never reported |
| ApiController.UpdatesExcludePrerelease | app/Http/Controllers/ApiController.php:217-220 | unless prereleases are included, no reported record is a prerelease |
| ApiController.ResolveUpdates | app/Http/Controllers/ApiController.php:211-227 | the loop's output is what `Emitted` gives for some answers the store may give, one per id |
| ApiController.GetUpdates | app/Http/Controllers/ApiController.php:196-230 | lists of different lengths give the `Invalid version count` error (eu-US, 301); otherwise `displayPackages` of the reported records for some valid store answers, titled `GetUpdates`, with id = route, the given time and their number as count |
| ApiController.DownloadSpec | app/Http/Controllers/ApiController.php:83-103 | no matching row: the 404 `not found` text and no change; otherwise the first matching row is served; its `version_download_count` goes up by one; `download_count` goes up by one on every row of the id; nothing else changes |
| ApiController.Counted | app/Http/Controllers/ApiController.php:92-100 | one row after a download: `download_count` up by one exactly when the row has the id, `version_download_count` up by one exactly on the served row, every other column unchanged |
| ApiController.CountedRows | app/Http/Controllers/ApiController.php:92-100 | every row after serving row `k` of the id, each as `Counted` gives it (no contract: the sequence is built element by element) |
| ApiController.Download | app/Http/Controllers/ApiController.php:83-103 | the in-place update of the table and the answer are exactly those of `DownloadSpec` |
| ApiController.CountDownload | app/Http/Controllers/ApiController.php:92-100 | the two counter updates leave the table as `CountedRows` describes |
| ApiController.TotalsAfterCounting | app/Http/Controllers/ApiController.php:92-100 | the counter sums change by the served row and by the number of versions of the id |
| ApiController.DownloadTotals | app/Http/Controllers/ApiController.php:92-100 | a served download adds 1 to the total `version_download_count`, and the number of versions of the package to the total `download_count` |
| ApiScenarios.SearchTermIsTrimmed | app/Http/Controllers/ApiController.php:328 | trimming the search term again changes nothing |
| ApiScenarios.QuotedTermLosesFinalR | app/Http/Controllers/ApiController.php:328-344 | `'foo bar'` becomes `foo ba`, which a title `foo baz` matches |
| ApiScenarios.TabbedTermKeepsTab | app/Http/Controllers/ApiController.php:328 | a leading tab is kept and a trailing `n` is cut |
| ApiScenarios.SelectTwoProperties | app/Http/Controllers/ApiController.php:297-302 | `$select=a,b` for two property names selects exactly `[a, b]` |
| ApiScenarios.TitleAndVersionEntries | app/Http/Controllers/ApiController.php:255-283 | entries for `[Title, Version]` fail exactly when `Title` has no accessor, and otherwise carry exactly those two properties, in that order |
| ApiScenarios.AccessorlessFirstFails | app/Http/Controllers/ApiController.php:264-280 | a property without accessor listed first fails the request at that property |
| ApiScenarios.AccessorlessAfterAccessorCarries | app/Http/Controllers/ApiController.php:264-281 | listed after a property with an accessor, a property without one carries that property's value |
| ApiScenarios.AbsentUpdateLists | app/Http/Controllers/ApiController.php:199-206 | absent `packageIds` and `versions` read as one empty id and one empty version, so no error is raised |
| ApiScenarios.MismatchedUpdateLists | app/Http/Controllers/ApiController.php:199-206 | a quoted list of two ids against a quoted list of one version reads as two ids and one version |
| ApiScenarios.UpdateScenario | app/Http/Controllers/ApiController.php:213-227 | with 1.0.0 installed, the update is 1.1.0 without prereleases and 1.2.0-beta with them |
| ApiScenarios.NoUpdateWhenLatestInstalled | app/Http/Controllers/ApiController.php:223 | with the latest stable version installed, nothing is reported |

## Left out

- **XML serialisation is not modelled.** This covers building the `DOMDocument`, the namespaces, `getAtomElement` and `Response::atom`. Feeds, entries and error documents are values.
- **`upload`, `index` and `metadata` are not modelled.** They are outside the modelled core: they store an uploaded archive and render fixed views.
- **The query builder's internals are not modelled.** Translating `$filter` and `$orderby`, `limit` with `$top`/`$skip`, `castType` and the accessor methods (`compute`) are function parameters of unknown behaviour.
- **Clock and routes are inputs.** `time()` and the route URLs are parameters.
- **The archive response is reduced to the served row.** `Response::download` becomes the index of that row.
- **Concurrency is not modelled.** The store is one sequence that changes only through the modelled writes. Lost updates between concurrent downloads, and the separate `save()` per row, are outside the model.
- **`LIKE` is a plain substring test.** The store's collation (case-insensitivity) and the `%`/`_` wildcards inside the term are not modelled.
- **Loose comparisons are read as string equality.** PHP's loose `!=` (line 223) and `==` (lines 113, 132, 185) are taken as string equality. The two sides differ only for numeric-looking strings.
- **NULL columns are modelled as strings.** A NULL column and an empty one both fail the substring test for any non-empty term. A NULL text column selected as a property reaches `castType` as the empty string `Str("")` rather than as null.
- **Store lookups compare strings exactly.** The `where('package_id', $id)` and `where('version', $version)` lookups (lines 85-86, 95-96, 159-160, 216) are modelled as exact string equality (`IsVersion`, `Qualifies`, `Counted`). Under a case-insensitive collation the store would also match ids or versions that differ only in case. For example, `download` would then also count rows whose id differs only in case; the model leaves them unchanged.
- **The inline count assumes `limit` does not change the query counted afterwards.** `$eloquent->count()` is read as the count of the query before `$top`/`$skip`.
- NugetQueryBuilder.Query.Where: it and-s the new clause with the whole predicate built so far. Eloquent appends `and c` to a flat clause list instead. So if `query($filter, $orderby)` emitted top-level `orWhere` clauses, SQL precedence would attach the `LIKE` group (line 337) and the prerelease gate (line 349) to the last disjunct only. The model assumes the builder's `$filter`/`$id` clauses form one group; the builder is not part of this model.
- NugetQueryBuilder.QueryBuilder.Page: what the page holds is promised only for a builder that pages soundly (`PagesSoundly`). `limit` is not required to keep the order, to return a contiguous slice, or to honour `$top`/`$skip` exactly.
- **`save()` timestamps and the unordered `first()` are simplified.**
  - `save()` (lines 93, 99) also sets `updated_at` when Eloquent timestamps are on. The row has no such column, so "nothing else changes" in `DownloadSpec` covers the modelled columns only.
  - `where(...)->first()` without `orderBy` (lines 85-87, 159-161) is taken as the first matching row in table order (`FindFirst`). SQL leaves that row unspecified; the store may return another matching row.
- **Unused parameters are not modelled.** `targetFramework`, `includeAllVersions`, `versionConstraints` and `targetFrameworks` are read or commented out and affect nothing.
- NugetPackage.Latest: it promises some record of greatest `created_at`, not the store's particular tiebreak among equal timestamps. The store's `ORDER BY` does not fix that tiebreak.
- ApiController.ResolveUpdates: for the same reason, it states its output for some valid answer per id, not for one fixed answer.
