/**
  * The NuGet V2 feed controller: update resolution, download counters, the search query, the
  * feed count, `$select` and property resolution, and the error documents.
  *
  * The request is a map of query-string parameters, the store a sequence (or, where the
  * controller writes to it, an array) of package rows, and the query builder an abstract value.
  * The current time and the route URLs are parameters.
  */
module ApiController {
  import opened Wrappers
  import opened PhpBuiltins
  import opened HttpInput
  import opened NugetPackage
  import opened NugetQueryBuilder
  import opened Atom

  // ---------------------------------------------------------------------------------------
  // Error documents
  // ---------------------------------------------------------------------------------------

  /** `generateError($message, $language, $status)`: an `m:error` document with an empty
    * `m:code`, the message under the given `xml:lang`, sent with the given status. */
  function GenerateError(message: string, language: string, status: int): (e: ErrorDocument)
    ensures e.message == message && e.language == language && e.status == status
  {
    ErrorDocument(message, language, status)
  }

  const NotFoundPrefix: string := "Resource not found for the segment '"
  const NotFoundSuffix: string := "'."

  /** The segment name a not-found message names, if `message` has that shape. */
  function NotFoundSegment(message: string): (segment: Option<string>) {
    if |message| >= |NotFoundPrefix| + |NotFoundSuffix|
       && message[..|NotFoundPrefix|] == NotFoundPrefix
       && message[|message| - |NotFoundSuffix|..] == NotFoundSuffix
    then Some(message[|NotFoundPrefix|..|message| - |NotFoundSuffix|])
    else None
  }

  /** `generateResourceNotFoundError($segmentName)`: status 404, language `en-US`, and a
    * message from which the segment name is recovered. */
  function ResourceNotFoundError(segment: string): (e: ErrorDocument)
    ensures e.language == "en-US" && e.status == 404
    ensures NotFoundSegment(e.message) == Some(segment)
  {
    var message := NotFoundPrefix + segment + NotFoundSuffix;
    assert message[..|NotFoundPrefix|] == NotFoundPrefix;
    assert message[|message| - |NotFoundSuffix|..] == NotFoundSuffix;
    assert message[|NotFoundPrefix|..|message| - |NotFoundSuffix|] == segment;
    GenerateError(message, "en-US", 404)
  }

  /** Every message of the not-found shape is the message of the error for its segment. */
  lemma NotFoundMessageRoundTrip(message: string, segment: string)
    requires NotFoundSegment(message) == Some(segment)
    ensures ResourceNotFoundError(segment).message == message
  {
    assert message == message[..|NotFoundPrefix|]
                      + message[|NotFoundPrefix|..|message| - |NotFoundSuffix|]
                      + message[|message| - |NotFoundSuffix|..];
  }

  /** The error `updates` answers with when the id and version lists differ in length: the
    * message `Invalid version count`, language `eu-US`, status 301, as the source writes them. */
  function VersionCountError(): (e: ErrorDocument)
    ensures e.message == "Invalid version count" && e.language == "eu-US" && e.status == 301
  {
    GenerateError("Invalid version count", "eu-US", 301)
  }

  /** A client tells the two error documents apart: the version-count error is not a
    * not-found error for any segment. */
  lemma ErrorDocumentsDistinct(segment: string)
    ensures NotFoundSegment(VersionCountError().message).None?
    ensures VersionCountError() != ResourceNotFoundError(segment)
  {
  }

  // ---------------------------------------------------------------------------------------
  // Search (processSearchQuery, search, searchNoAction)
  // ---------------------------------------------------------------------------------------

  /** The search term as read: `trim(Input::get('searchTerm', ''), '\' \t\n\r\0\x0B')`. */
  function SearchTerm(req: Request): (t: string)
    ensures "searchTerm" !in req ==> t == ""
    ensures t == [] || (t[0] !in SearchTermTrimChars && t[|t| - 1] !in SearchTermTrimChars)
    ensures exists lo :: IsTrimmedAt(GetOr(req, "searchTerm", ""), SearchTermTrimChars, lo, t)
  {
    Trim(GetOr(req, "searchTerm", ""), SearchTermTrimChars)
  }

  /** The trimmed term can never be "0" (a `0` is itself trimmed away), so PHP's `empty()`
    * on it holds exactly when it is the empty string. */
  lemma TrimmedTermEmptyIffBlank(s: string)
    ensures IsEmpty(Trim(s, SearchTermTrimChars)) <==> Trim(s, SearchTermTrimChars) == ""
  {
    var t := Trim(s, SearchTermTrimChars);
    assert t == "0" ==> t[0] == '0';
  }

  /** `needle` occurs in `hay` starting at index `k`. */
  predicate OccursAt(hay: string, needle: string, k: int) {
    0 <= k <= |hay| - |needle| && hay[k..k + |needle|] == needle
  }

  /** `LIKE '%needle%'`, read as a plain substring test. An empty needle (`'%%'`) is contained
    * in every string. */
  predicate Contains(hay: string, needle: string)
    ensures needle == [] ==> Contains(hay, needle)
  {
    assert needle == [] ==> OccursAt(hay, needle, 0);
    exists k :: 0 <= k <= |hay| - |needle| && OccursAt(hay, needle, k)
  }

  /** `Contains` is the substring relation: it holds exactly when some slice of `hay` is `needle`. */
  lemma ContainsIffSlice(hay: string, needle: string)
    ensures Contains(hay, needle) <==> exists lo, hi :: 0 <= lo <= hi <= |hay| && hay[lo..hi] == needle
  {
    if exists lo, hi :: 0 <= lo <= hi <= |hay| && hay[lo..hi] == needle {
      var lo, hi :| 0 <= lo <= hi <= |hay| && hay[lo..hi] == needle;
      assert OccursAt(hay, needle, lo);
    }
  }

  /** The OR of the six `LIKE` clauses; a row matches when one of its six text columns
    * contains the term, so every row matches the empty term. */
  predicate MatchesTerm(p: Package, term: string)
    ensures MatchesTerm(p, term) <==>
              exists c :: c in [p.packageId, p.title, p.description, p.summary, p.tags, p.authors] && Contains(c, term)
    ensures term == [] ==> MatchesTerm(p, term)
  {
    || Contains(p.packageId, term)
    || Contains(p.title, term)
    || Contains(p.description, term)
    || Contains(p.summary, term)
    || Contains(p.tags, term)
    || Contains(p.authors, term)
  }

  /** The reference condition for a row to be a search hit: the base filter holds, the trimmed
    * term is empty or one of the six text columns contains it, and the row is not a prerelease
    * unless `includePrerelease` is exactly "true". */
  predicate PassesSearch(qb: QueryBuilder, req: Request, p: Package) {
    && qb.filter(Get(req, "$filter"), None, p)
    && (SearchTerm(req) == "" || MatchesTerm(p, SearchTerm(req)))
    && (IsTrue(req, "includePrerelease") || !p.isPrerelease)
  }

  /** `PassesSearch` as a value, for filtering. */
  function SearchTest(qb: QueryBuilder, req: Request): (test: Package -> bool) {
    p => PassesSearch(qb, req, p)
  }

  /** `processSearchQuery()`: the base query from `$filter` and `$orderby`, a `LIKE` clause
    * group unless the term is `empty()`, and the prerelease gate. A row passes exactly when
    * the reference condition holds. */
  function ProcessSearchQuery(qb: QueryBuilder, req: Request): (q: Query)
    ensures q.orderBy == Get(req, "$orderby")
    ensures forall p :: q.where(p) <==> PassesSearch(qb, req, p)
  {
    var term := SearchTerm(req);
    TrimmedTermEmptyIffBlank(GetOr(req, "searchTerm", ""));
    var base := qb.BaseQuery(Get(req, "$filter"), Get(req, "$orderby"), None);
    var searched := if !IsEmpty(term) then base.Where((p: Package) => MatchesTerm(p, term)) else base;
    if !IsTrue(req, "includePrerelease") then searched.Where((p: Package) => !p.isPrerelease) else searched
  }

  /** The rows a search selects are the rows passing the reference condition, in table order. */
  lemma SearchSelectsPassingRows(qb: QueryBuilder, req: Request, rows: seq<Package>)
    ensures ProcessSearchQuery(qb, req).Matching(rows) == ArrayFilter(rows, SearchTest(qb, req))
  {
    ArrayFilterExtensional(rows, ProcessSearchQuery(qb, req).where, SearchTest(qb, req));
  }

  /** Two tests that agree on every element filter alike. */
  lemma {:induction false} ArrayFilterExtensional(s: seq<Package>, f: Package -> bool, g: Package -> bool)
    requires forall p :: f(p) == g(p)
    ensures ArrayFilter(s, f) == ArrayFilter(s, g)
    decreases |s|
  {
    if s != [] {
      ArrayFilterExtensional(s[..|s| - 1], f, g);
    }
  }

  /** `search($action)`: for the action `count` or `$count`, the number of rows the search
    * query selects; for any other action, nothing. */
  function SearchAction(qb: QueryBuilder, rows: seq<Package>, req: Request, action: string): (r: Option<nat>)
    ensures r.Some? <==> action == "count" || action == "$count"
    ensures r.Some? ==> r.value == |ArrayFilter(rows, SearchTest(qb, req))|
  {
    SearchSelectsPassingRows(qb, req, rows);
    if action == "count" || action == "$count" then Some(ProcessSearchQuery(qb, req).Count(rows))
    else None
  }

  // ---------------------------------------------------------------------------------------
  // Counts (searchNoAction, packages)
  // ---------------------------------------------------------------------------------------

  /** `Input::has('$inlinecount') && Input::get('$inlinecount') == 'allpages'`. The `has` test
    * adds nothing: the request asks for the count over all pages exactly when the parameter
    * is the string `allpages`. */
  predicate WantsAllPagesCount(req: Request)
    ensures WantsAllPagesCount(req) <==> Get(req, "$inlinecount") == Some("allpages")
  {
    assert "allpages"[0] !in DefaultTrimChars;
    Has(req, "$inlinecount") && req["$inlinecount"] == "allpages"
  }

  /** `$select` present (and not blank): its comma-separated names that are properties, in their
    * order and with repeats; otherwise `getAllProperties()`. */
  function SelectedProperties(qb: QueryBuilder, req: Request): (names: seq<string>)
    ensures Has(req, "$select") ==> forall i :: 0 <= i < |names| ==> qb.IsProperty(names[i])
    ensures !Has(req, "$select") ==> names == qb.allProperties
  {
    if Has(req, "$select") then ArrayFilter(Explode(req["$select"], ','), qb.PropertyTest())
    else qb.allProperties
  }

  /** With `$select`, each property name is emitted as often as it is listed, and no name that
    * is not listed is emitted. */
  lemma SelectedPropertiesMultiplicity(qb: QueryBuilder, req: Request, name: string)
    requires Has(req, "$select")
    ensures multiset(SelectedProperties(qb, req))[name]
            == if qb.IsProperty(name) then multiset(Explode(req["$select"], ','))[name] else 0
  {
    ArrayFilterMultiplicity(Explode(req["$select"], ','), qb.PropertyTest(), name);
  }

  /** The selection for `$select=x,y` is the selection for `x` followed by the selection for
    * `y`: the listed order is kept. */
  lemma SelectedPropertiesKeepOrder(qb: QueryBuilder, x: string, y: string)
    ensures var both := map["$select" := x + [','] + y];
            Has(both, "$select") ==>
              SelectedProperties(qb, both)
              == ArrayFilter(Explode(x, ','), qb.PropertyTest()) + ArrayFilter(Explode(y, ','), qb.PropertyTest())
  {
    ExplodeConcat(x, y, ',');
    ArrayFilterAppend(Explode(x, ','), Explode(y, ','), qb.PropertyTest());
  }

  // ---------------------------------------------------------------------------------------
  // Property values (addPackagePropertiesToAtomElement)
  // ---------------------------------------------------------------------------------------

  predicate HasAccessor(m: Mapping) {
    m.func.Some? || m.field.Some?
  }

  /** `$value` after handling mapping `m`: the accessor method's result if there is one, else
    * the column's value, else what `$value` held before. `$value` is a local of the whole loop
    * and is undefined (None) until first assigned. */
  function Resolve(qb: QueryBuilder, m: Mapping, pkg: Package, previous: Option<Value>): (v: Option<Value>)
    ensures m.func.Some? ==> v == Some(qb.compute(m.func.value, pkg))
    ensures m.func.None? && m.field.Some? ==> v == Some(Attribute(pkg, m.field.value))
    ensures !HasAccessor(m) ==> v == previous
    ensures v.Some? <==> HasAccessor(m) || previous.Some?
  {
    if m.func.Some? then Some(qb.compute(m.func.value, pkg))
    else if m.field.Some? then Some(Attribute(pkg, m.field.value))
    else previous
  }

  /** The state of the loop after a prefix of its names: the properties added so far and
    * `$value`, or the property at which the undefined `$value` was read. PHP reports that read
    * as an error, which ends the request. */
  datatype Trail = Trail(props: seq<Property>, value: Option<Value>) | Undefined(property: string)

  /** The loop of `addPackagePropertiesToAtomElement` over `names`, as a value. */
  function PropertyTrail(qb: QueryBuilder, pkg: Package, names: seq<string>): (t: Trail)
    ensures t.Trail? ==> |t.props| <= |names|
    ensures t.Trail? ==> forall i :: 0 <= i < |t.props| ==> t.props[i].name in names && t.props[i].name in qb.mappings
    ensures t.Undefined? ==> t.property in names && t.property in qb.mappings && !HasAccessor(qb.mappings[t.property])
    decreases |names|
  {
    if names == [] then Trail([], None)
    else
      var prior := PropertyTrail(qb, pkg, names[..|names| - 1]);
      var name := names[|names| - 1];
      if prior.Undefined? || name !in qb.mappings then prior
      else
        var m := qb.mappings[name];
        match Resolve(qb, m, pkg, prior.value)
        case None => Undefined(name)
        case Some(value) => Trail(prior.props + [Property(name, qb.castType(name, value), m.xmlType)], Some(value))
  }

  /** The properties of one entry, or the name of the property whose value was undefined. */
  function EntryProperties(qb: QueryBuilder, pkg: Package, names: seq<string>): (r: Result<seq<Property>, string>)
    ensures r.Success? ==> |r.value| <= |names|
    ensures r.Success? ==> forall i :: 0 <= i < |r.value| ==> r.value[i].name in names && qb.IsProperty(r.value[i].name)
    ensures r.Failure? ==> r.error in names && qb.IsProperty(r.error) && !HasAccessor(qb.mappings[r.error])
  {
    match PropertyTrail(qb, pkg, names)
    case Trail(props, _) => Success(props)
    case Undefined(name) => Failure(name)
  }

  /** The first listed property name, when its mapping has no accessor: for it, `$value` is
    * read before anything was assigned to it. */
  function UnresolvedProperty(qb: QueryBuilder, names: seq<string>): (u: Option<string>)
    ensures u.Some? ==> u.value in names && qb.IsProperty(u.value) && !HasAccessor(qb.mappings[u.value])
    ensures (forall n :: n in names ==> !qb.IsProperty(n)) ==> u.None?
  {
    var kept := ArrayFilter(names, qb.PropertyTest());
    if kept != [] && !HasAccessor(qb.mappings[kept[0]]) then Some(kept[0]) else None
  }

  /** The raw value of the last name in `names` whose mapping has an accessor, or None. */
  function LastResolved(qb: QueryBuilder, pkg: Package, names: seq<string>): (v: Option<Value>)
    ensures v.None? <==> forall n :: n in names && n in qb.mappings ==> !HasAccessor(qb.mappings[n])
    decreases |names|
  {
    if names == [] then None
    else
      var name := names[|names| - 1];
      if name in qb.mappings && HasAccessor(qb.mappings[name]) then Resolve(qb, qb.mappings[name], pkg, None)
      else LastResolved(qb, pkg, names[..|names| - 1])
  }

  /** While the loop has not failed, `$value` holds the value resolved by the last name with
    * an accessor. */
  lemma {:induction false} TrailCarriesLastResolved(qb: QueryBuilder, pkg: Package, names: seq<string>)
    ensures PropertyTrail(qb, pkg, names).Trail? ==> PropertyTrail(qb, pkg, names).value == LastResolved(qb, pkg, names)
    decreases |names|
  {
    if names != [] {
      TrailCarriesLastResolved(qb, pkg, names[..|names| - 1]);
    }
  }

  /** Once the loop has failed, the names after that point change nothing. */
  lemma {:induction false} UndefinedPersists(qb: QueryBuilder, pkg: Package, names: seq<string>, j: nat)
    requires j <= |names|
    requires PropertyTrail(qb, pkg, names[..j]).Undefined?
    ensures PropertyTrail(qb, pkg, names) == PropertyTrail(qb, pkg, names[..j])
    decreases |names|
  {
    if j < |names| {
      var n := |names| - 1;
      assert names[..n][..j] == names[..j];
      UndefinedPersists(qb, pkg, names[..n], j);
    } else {
      assert names[..j] == names;
    }
  }

  /** Names that are not properties are skipped: the trail equals that of the filtered names. */
  lemma {:induction false} TrailIgnoresNonProperties(qb: QueryBuilder, pkg: Package, names: seq<string>)
    ensures PropertyTrail(qb, pkg, names) == PropertyTrail(qb, pkg, ArrayFilter(names, qb.PropertyTest()))
    decreases |names|
  {
    if names != [] {
      var init := names[..|names| - 1];
      var name := names[|names| - 1];
      TrailIgnoresNonProperties(qb, pkg, init);
      var kept := ArrayFilter(names, qb.PropertyTest());
      if name in qb.mappings {
        assert kept == ArrayFilter(init, qb.PropertyTest()) + [name];
        assert kept[..|kept| - 1] == ArrayFilter(init, qb.PropertyTest());
      } else {
        assert kept == ArrayFilter(init, qb.PropertyTest());
      }
    }
  }

  /** On a list of property names, the loop fails exactly when the first name has no
    * accessor, and then at that name; otherwise `$value` is defined from the first name on. */
  lemma {:induction false} KeptTrailUndefinedIff(qb: QueryBuilder, pkg: Package, kept: seq<string>)
    requires forall j :: 0 <= j < |kept| ==> kept[j] in qb.mappings
    ensures var t := PropertyTrail(qb, pkg, kept);
            && (t.Undefined? <==> kept != [] && !HasAccessor(qb.mappings[kept[0]]))
            && (t.Undefined? ==> t.property == kept[0])
            && (t.Trail? && kept != [] ==> t.value.Some?)
    decreases |kept|
  {
    if kept != [] {
      var n := |kept| - 1;
      var init := kept[..n];
      KeptTrailUndefinedIff(qb, pkg, init);
      if init != [] {
        assert init[0] == kept[0];
      }
    }
  }

  /** An entry fails exactly when its first property has no accessor, and it names that property. */
  lemma EntryPropertiesFailIff(qb: QueryBuilder, pkg: Package, names: seq<string>)
    ensures EntryProperties(qb, pkg, names).Failure? <==> UnresolvedProperty(qb, names).Some?
    ensures EntryProperties(qb, pkg, names).Failure? ==>
              EntryProperties(qb, pkg, names).error == UnresolvedProperty(qb, names).value
  {
    var kept := ArrayFilter(names, qb.PropertyTest());
    assert forall j :: 0 <= j < |kept| ==> qb.PropertyTest()(kept[j]);
    TrailIgnoresNonProperties(qb, pkg, names);
    KeptTrailUndefinedIff(qb, pkg, kept);
  }

  lemma {:induction false} EntryPropertiesLength(qb: QueryBuilder, pkg: Package, kept: seq<string>)
    requires forall j :: 0 <= j < |kept| ==> kept[j] in qb.mappings
    ensures EntryProperties(qb, pkg, kept).Success? ==> |EntryProperties(qb, pkg, kept).value| == |kept|
    decreases |kept|
  {
    if kept != [] {
      EntryPropertiesLength(qb, pkg, kept[..|kept| - 1]);
    }
  }

  /** On a list of property names that does not fail, the i-th emitted property is the i-th
    * name, with its type tag and the cast of its resolved value. */
  lemma {:induction false} EntryPropertyOfKeptName(qb: QueryBuilder, pkg: Package, kept: seq<string>, i: nat)
    requires forall j :: 0 <= j < |kept| ==> kept[j] in qb.mappings
    requires i < |kept|
    ensures var r := EntryProperties(qb, pkg, kept);
            var v := Resolve(qb, qb.mappings[kept[i]], pkg, LastResolved(qb, pkg, kept[..i]));
            r.Success? ==>
              && |r.value| == |kept|
              && v.Some?
              && r.value[i] == Property(kept[i], qb.castType(kept[i], v.value), qb.mappings[kept[i]].xmlType)
    decreases |kept|
  {
    var n := |kept| - 1;
    var init := kept[..n];
    EntryPropertiesLength(qb, pkg, init);
    EntryPropertiesLength(qb, pkg, kept);
    if i < n {
      EntryPropertyOfKeptName(qb, pkg, init, i);
      assert init[..i] == kept[..i];
    } else {
      TrailCarriesLastResolved(qb, pkg, init);
      assert kept[..i] == init;
    }
  }

  /** What an entry carries for a list of names. It fails, naming the property, exactly when
    * the first listed property has no accessor. Otherwise it has one property per listed
    * property name, in the same order and with the mapping's type tag; the value is the cast
    * of the accessor method's result when the mapping has one, else of the column's value,
    * and for a mapping with neither, of the value resolved by the nearest earlier name with
    * an accessor. */
  lemma EntryPropertiesMeaning(qb: QueryBuilder, pkg: Package, names: seq<string>, i: nat)
    requires i < |ArrayFilter(names, qb.PropertyTest())|
    ensures var kept := ArrayFilter(names, qb.PropertyTest());
            var r := EntryProperties(qb, pkg, names);
            var m := qb.mappings[kept[i]];
            && (r.Failure? <==> !HasAccessor(qb.mappings[kept[0]]))
            && (r.Failure? ==> r.error == kept[0])
            && (r.Success? ==>
                  && |r.value| == |kept|
                  && r.value[i].name == kept[i]
                  && r.value[i].xmlType == m.xmlType
                  && (m.func.Some? ==> r.value[i].value == qb.castType(kept[i], qb.compute(m.func.value, pkg)))
                  && (m.func.None? && m.field.Some? ==> r.value[i].value == qb.castType(kept[i], Attribute(pkg, m.field.value)))
                  && (!HasAccessor(m) ==>
                        && 0 < i
                        && LastResolved(qb, pkg, kept[..i]).Some?
                        && r.value[i].value == qb.castType(kept[i], LastResolved(qb, pkg, kept[..i]).value)))
  {
    var kept := ArrayFilter(names, qb.PropertyTest());
    assert forall j :: 0 <= j < |kept| ==> qb.PropertyTest()(kept[j]);
    EntryPropertiesFailIff(qb, pkg, names);
    TrailIgnoresNonProperties(qb, pkg, names);
    EntryPropertyOfKeptName(qb, pkg, kept, i);
  }

  /** The loop of `addPackagePropertiesToAtomElement` over `names`; it stops with the name of
    * the property whose `$value` is read while undefined. */
  method AddPackageProperties(qb: QueryBuilder, pkg: Package, names: seq<string>) returns (r: Result<seq<Property>, string>)
    ensures r == EntryProperties(qb, pkg, names)
  {
    var props: seq<Property> := [];
    var value: Option<Value> := None;
    for i := 0 to |names|
      invariant PropertyTrail(qb, pkg, names[..i]) == Trail(props, value)
    {
      assert names[..i + 1][..i] == names[..i];
      var name := names[i];
      if !qb.IsProperty(name) {
        continue;
      }
      var m := qb.mappings[name];
      if m.func.Some? {
        value := Some(qb.compute(m.func.value, pkg));
      } else if m.field.Some? {
        value := Some(Attribute(pkg, m.field.value));
      }
      if value.None? {
        UndefinedPersists(qb, pkg, names, i + 1);
        return Failure(name);
      }
      props := props + [Property(name, qb.castType(name, value.value), m.xmlType)];
    }
    assert names[..|names|] == names;
    r := Success(props);
  }

  // ---------------------------------------------------------------------------------------
  // Feeds (displayPackages, searchNoAction, packages, package)
  // ---------------------------------------------------------------------------------------

  /** Why a request gets no feed: an error document from `generateError`, or the error PHP
    * raises when `$value` is read while undefined, naming the property. */
  datatype Fault = ErrorReply(document: ErrorDocument) | UndefinedValue(property: string)

  /** How `displayPackages` answers for `packages`. When there is an entry to fill and the
    * first selected property has no accessor, the request fails at that property. Otherwise
    * the answer is a feed with the given id, title, time and count, one self link, and one
    * entry per package, in order, each with the selected properties. */
  predicate DisplaysPackages(qb: QueryBuilder, req: Request, packages: seq<Package>, id: string, title: string,
                             updated: int, count: int, r: Result<Feed, Fault>) {
    var selected := SelectedProperties(qb, req);
    var unresolved := UnresolvedProperty(qb, selected);
    if packages != [] && unresolved.Some? then r == Failure(UndefinedValue(unresolved.value))
    else
      && r.Success?
      && r.value.id == id && r.value.title == title && r.value.updated == updated && r.value.count == count
      && r.value.links == [Link("self", title, title)]
      && EntryPackages(r.value.entries) == packages
      && forall i :: 0 <= i < |r.value.entries| ==>
           EntryProperties(qb, packages[i], selected) == Success(r.value.entries[i].properties)
  }

  /** `displayPackages($packages, $id, $title, $updated, $count)`. */
  method DisplayPackages(qb: QueryBuilder, req: Request, packages: seq<Package>, id: string, title: string, updated: int, count: int)
    returns (r: Result<Feed, Fault>)
    ensures DisplaysPackages(qb, req, packages, id, title, updated, count, r)
  {
    var properties := SelectedProperties(qb, req);
    var entries: seq<Entry> := [];
    for i := 0 to |packages|
      invariant |entries| == i
      invariant forall j :: 0 <= j < i ==>
                  entries[j].package == packages[j] && Success(entries[j].properties) == EntryProperties(qb, packages[j], properties)
    {
      var props := AddPackageProperties(qb, packages[i], properties);
      if props.Failure? {
        EntryPropertiesFailIff(qb, packages[i], properties);
        return Failure(UndefinedValue(props.error));
      }
      entries := entries + [Entry(packages[i], props.value)];
    }
    if packages != [] {
      EntryPropertiesFailIff(qb, packages[0], properties);
    }
    r := Success(Feed(id, title, updated, [Link("self", title, title)], count, entries));
  }

  /** `searchNoAction()`: the page of the search query, counted over all pages when
    * `$inlinecount` is `allpages` and as the page length otherwise. */
  method SearchNoAction(qb: QueryBuilder, rows: seq<Package>, req: Request, route: string, updated: int)
    returns (r: Result<Feed, Fault>)
    ensures var q := ProcessSearchQuery(qb, req);
            var page := qb.Page(q, Get(req, "$top"), Get(req, "$skip"), rows);
            var count := if Get(req, "$inlinecount") == Some("allpages") then q.Count(rows) else |page|;
            DisplaysPackages(qb, req, page, route, "Search", updated, count, r)
    ensures qb.PagesSoundly() && r.Success? ==>
              forall i :: 0 <= i < |r.value.entries| ==>
                r.value.entries[i].package in rows && PassesSearch(qb, req, r.value.entries[i].package)
  {
    var eloquent := ProcessSearchQuery(qb, req);
    var packages := qb.Page(eloquent, Get(req, "$top"), Get(req, "$skip"), rows);
    var count := if WantsAllPagesCount(req) then eloquent.Count(rows) else |packages|;
    r := DisplayPackages(qb, req, packages, route, "Search", updated, count);
  }

  /** `packages()`: the page of the base query for `$filter`, `$orderby` and the trimmed `id`,
    * with the same count rule as the search. */
  method Packages(qb: QueryBuilder, rows: seq<Package>, req: Request, route: string, updated: int)
    returns (r: Result<Feed, Fault>)
    ensures var q := qb.BaseQuery(Get(req, "$filter"), Get(req, "$orderby"), Some(Trim(GetOr(req, "id", ""), IdTrimChars)));
            var page := qb.Page(q, Get(req, "$top"), Get(req, "$skip"), rows);
            var count := if Get(req, "$inlinecount") == Some("allpages") then q.Count(rows) else |page|;
            DisplaysPackages(qb, req, page, route, "Packages", updated, count, r)
    ensures qb.PagesSoundly() && r.Success? ==>
              forall i :: 0 <= i < |r.value.entries| ==>
                && r.value.entries[i].package in rows
                && qb.filter(Get(req, "$filter"), Some(Trim(GetOr(req, "id", ""), IdTrimChars)), r.value.entries[i].package)
  {
    var eloquent := qb.BaseQuery(Get(req, "$filter"), Get(req, "$orderby"), Some(Trim(GetOr(req, "id", ""), IdTrimChars)));
    var packages := qb.Page(eloquent, Get(req, "$top"), Get(req, "$skip"), rows);
    var count := if WantsAllPagesCount(req) then eloquent.Count(rows) else |packages|;
    r := DisplayPackages(qb, req, packages, route, "Packages", updated, count);
  }

  /** `package($id, $version)`: the not-found error for the segment `Packages` when no row has
    * that id and version; otherwise the first such row as an entry with all properties, or
    * the failure on an unresolved property. */
  method PackageMetadata(qb: QueryBuilder, rows: seq<Package>, id: string, version: string)
    returns (r: Result<Entry, Fault>)
    ensures FindFirst(rows, id, version).None? ==> r == Failure(ErrorReply(ResourceNotFoundError("Packages")))
    ensures FindFirst(rows, id, version).Some? ==>
              var k := FindFirst(rows, id, version).value;
              var unresolved := UnresolvedProperty(qb, qb.allProperties);
              && (unresolved.Some? ==> r == Failure(UndefinedValue(unresolved.value)))
              && (unresolved.None? ==>
                    r.Success? && r.value.package == rows[k]
                    && EntryProperties(qb, rows[k], qb.allProperties) == Success(r.value.properties))
  {
    var found := FindFirst(rows, id, version);
    if found.None? {
      return Failure(ErrorReply(ResourceNotFoundError("Packages")));
    }
    var package := rows[found.value];
    var props := AddPackageProperties(qb, package, qb.allProperties);
    EntryPropertiesFailIff(qb, package, qb.allProperties);
    match props
    case Failure(name) => r := Failure(UndefinedValue(name));
    case Success(ps) => r := Success(Entry(package, ps));
  }

  // ---------------------------------------------------------------------------------------
  // Update resolution (updates)
  // ---------------------------------------------------------------------------------------

  /** `explode('|', trim(Input::get($key), "'"))`, as read for `packageIds` and `versions`:
    * never empty (an absent parameter gives `[""]`), no part holds the delimiter, and joining
    * the parts gives back the parameter without its surrounding quotes. */
  function UpdateList(req: Request, key: string): (parts: seq<string>)
    ensures |parts| >= 1 && forall i :: 0 <= i < |parts| ==> '|' !in parts[i]
    ensures Implode(parts, '|') == Trim(GetOr(req, key, ""), {'\''})
  {
    Explode(Trim(GetOr(req, key, ""), {'\''}), '|')
  }

  /** One lookup answer per id, each one the store may give. */
  ghost predicate ValidLookups(rows: seq<Package>, ids: seq<string>, includePrerelease: bool, picks: seq<Option<Package>>) {
    |picks| == |ids| && forall i :: 0 <= i < |ids| ==> IsLatestLookup(rows, ids[i], includePrerelease, picks[i])
  }

  /** A lookup answer is reported for an installed version when it exists and its version string
    * differs from the installed one. */
  predicate IsUpdate(pick: Option<Package>, installed: string) {
    pick.Some? && pick.value.version != installed
  }

  /** The reported records, pair by pair in input order. */
  function Emitted(picks: seq<Option<Package>>, versions: seq<string>): (out: seq<Package>)
    requires |picks| == |versions|
    ensures |out| <= |picks|
    ensures forall p :: p in out ==> exists i :: 0 <= i < |picks| && picks[i] == Some(p) && IsUpdate(picks[i], versions[i])
    decreases |picks|
  {
    if picks == [] then []
    else
      var n := |picks| - 1;
      Emitted(picks[..n], versions[..n]) + (if IsUpdate(picks[n], versions[n]) then [picks[n].value] else [])
  }

  /** The positions of the pairs that are reported: increasing, and exactly those whose answer
    * is an update. */
  function ReportedPairs(picks: seq<Option<Package>>, versions: seq<string>): (idx: seq<nat>)
    requires |picks| == |versions|
    ensures forall k :: 0 <= k < |idx| ==> idx[k] < |picks| && IsUpdate(picks[idx[k]], versions[idx[k]])
    ensures forall k, l :: 0 <= k < l < |idx| ==> idx[k] < idx[l]
    ensures forall i :: 0 <= i < |picks| && IsUpdate(picks[i], versions[i]) ==> i in idx
    decreases |picks|
  {
    if picks == [] then []
    else
      var n := |picks| - 1;
      ReportedPairs(picks[..n], versions[..n]) + (if IsUpdate(picks[n], versions[n]) then [n] else [])
  }

  /** The k-th reported record is the answer for the k-th reported pair; so the output follows
    * input order and holds at most one record per pair. */
  lemma {:induction false} EmittedFollowsReportedPairs(picks: seq<Option<Package>>, versions: seq<string>)
    requires |picks| == |versions|
    ensures var out := Emitted(picks, versions);
            var idx := ReportedPairs(picks, versions);
            && |out| == |idx| <= |picks|
            && forall k :: 0 <= k < |idx| ==> out[k] == picks[idx[k]].value
    decreases |picks|
  {
    if picks != [] {
      var n := |picks| - 1;
      EmittedFollowsReportedPairs(picks[..n], versions[..n]);
    }
  }

  /** What the update output means for the store: each reported record is, for the id of its
    * pair, a qualifying record of greatest `created_at`, and its version differs from the
    * installed one; a pair is reported exactly when the store's answer exists and has a
    * different version. */
  lemma UpdatesAreLatestAndNew(rows: seq<Package>, ids: seq<string>, versions: seq<string>, includePrerelease: bool,
                               picks: seq<Option<Package>>)
    requires |ids| == |versions|
    requires ValidLookups(rows, ids, includePrerelease, picks)
    ensures var out := Emitted(picks, versions);
            var idx := ReportedPairs(picks, versions);
            && |out| == |idx|
            && (forall k :: 0 <= k < |idx| ==>
                  && IsLatest(rows, ids[idx[k]], includePrerelease, out[k])
                  && out[k].packageId == ids[idx[k]]
                  && out[k].version != versions[idx[k]])
            && (forall i :: 0 <= i < |ids| && (forall q :: q in rows ==> !Qualifies(q, ids[i], includePrerelease)) ==> i !in idx)
  {
    EmittedFollowsReportedPairs(picks, versions);
  }

  /** Unless prerelease versions are included, no reported record is a prerelease. */
  lemma UpdatesExcludePrerelease(rows: seq<Package>, ids: seq<string>, versions: seq<string>, picks: seq<Option<Package>>)
    requires |ids| == |versions|
    requires ValidLookups(rows, ids, false, picks)
    ensures forall p :: p in Emitted(picks, versions) ==> !p.isPrerelease
  {
    var out := Emitted(picks, versions);
    var idx := ReportedPairs(picks, versions);
    EmittedFollowsReportedPairs(picks, versions);
    forall p | p in out
      ensures !p.isPrerelease
    {
      var k :| 0 <= k < |out| && out[k] == p;
      assert IsLatestLookup(rows, ids[idx[k]], false, picks[idx[k]]);
    }
  }

  /** The loop of `updates`: for each pair in order, the latest qualifying record of that id,
    * kept when its version differs from the installed one. */
  method ResolveUpdates(rows: seq<Package>, ids: seq<string>, versions: seq<string>, includePrerelease: bool)
    returns (updates: seq<Package>)
    requires |ids| == |versions|
    ensures exists picks :: ValidLookups(rows, ids, includePrerelease, picks) && updates == Emitted(picks, versions)
  {
    updates := [];
    ghost var picks: seq<Option<Package>> := [];
    for i := 0 to |ids|
      invariant ValidLookups(rows, ids[..i], includePrerelease, picks)
      invariant updates == Emitted(picks, versions[..i])
    {
      var version := versions[i];
      var latest := Latest(rows, ids[i], includePrerelease);
      assert versions[..i + 1][..i] == versions[..i];
      assert (picks + [latest])[..i] == picks;
      if latest.Some? && latest.value.version != version {
        updates := updates + [latest.value];
      }
      picks := picks + [latest];
    }
    assert ids[..|ids|] == ids;
    assert versions[..|versions|] == versions;
  }

  /** `updates()`: the version-count error when the lists differ in length (before any lookup,
    * so the answer does not depend on the store); otherwise the `GetUpdates` feed of the
    * reported records, counted by their number. */
  method GetUpdates(qb: QueryBuilder, rows: seq<Package>, req: Request, route: string, updated: int)
    returns (r: Result<Feed, Fault>)
    ensures |UpdateList(req, "packageIds")| != |UpdateList(req, "versions")| ==> r == Failure(ErrorReply(VersionCountError()))
    ensures |UpdateList(req, "packageIds")| == |UpdateList(req, "versions")| ==>
              exists picks :: && ValidLookups(rows, UpdateList(req, "packageIds"), IsTrue(req, "includePrerelease"), picks)
                              && var reported := Emitted(picks, UpdateList(req, "versions"));
                                 DisplaysPackages(qb, req, reported, route, "GetUpdates", updated, |reported|, r)
  {
    var packageIds := UpdateList(req, "packageIds");
    var packageVersions := UpdateList(req, "versions");
    var includePrerelease := IsTrue(req, "includePrerelease");
    if |packageIds| != |packageVersions| {
      return Failure(ErrorReply(VersionCountError()));
    }
    var packages := ResolveUpdates(rows, packageIds, packageVersions, includePrerelease);
    ghost var picks :| ValidLookups(rows, packageIds, includePrerelease, picks) && packages == Emitted(picks, packageVersions);
    r := DisplayPackages(qb, req, packages, route, "GetUpdates", updated, |packages|);
  }

  // ---------------------------------------------------------------------------------------
  // Download counters (download)
  // ---------------------------------------------------------------------------------------

  /** The answer to a download: the plain-text 404, or the archive of the row at `row`. */
  datatype DownloadResponse = Text(body: string, status: int) | Nupkg(row: nat)

  /** A row after a download of version `k` of package `id`, where `isTarget` says whether this
    * row is row `k`. */
  function Counted(p: Package, id: string, isTarget: bool): (after: Package)
    ensures after.downloadCount == p.downloadCount + (if p.packageId == id then 1 else 0)
    ensures after.versionDownloadCount == p.versionDownloadCount + (if isTarget then 1 else 0)
    ensures after.(downloadCount := 0, versionDownloadCount := 0) == p.(downloadCount := 0, versionDownloadCount := 0)
  {
    p.(downloadCount := if p.packageId == id then p.downloadCount + 1 else p.downloadCount,
       versionDownloadCount := if isTarget then p.versionDownloadCount + 1 else p.versionDownloadCount)
  }

  /** The effect of `download($id, $version)` on the rows. With no matching row: the 404 answer
    * and no change. Otherwise the first matching row is served, its `version_download_count`
    * goes up by one, the `download_count` of every row of the same package id goes up by one,
    * and nothing else changes. */
  function DownloadSpec(rows: seq<Package>, id: string, version: string): (r: (DownloadResponse, seq<Package>))
    ensures FindFirst(rows, id, version).None? ==> r == (Text("not found", 404), rows)
    ensures FindFirst(rows, id, version).Some? ==>
              var k := FindFirst(rows, id, version).value;
              && r.0 == Nupkg(k)
              && |r.1| == |rows|
              && (forall i :: 0 <= i < |rows| ==>
                    r.1[i].versionDownloadCount == rows[i].versionDownloadCount + (if i == k then 1 else 0))
              && (forall i :: 0 <= i < |rows| ==>
                    r.1[i].downloadCount == rows[i].downloadCount + (if rows[i].packageId == id then 1 else 0))
              && (forall i :: 0 <= i < |rows| ==>
                    r.1[i].(downloadCount := 0, versionDownloadCount := 0) == rows[i].(downloadCount := 0, versionDownloadCount := 0))
  {
    match FindFirst(rows, id, version)
    case None => (Text("not found", 404), rows)
    case Some(k) => (Nupkg(k), CountedRows(rows, id, k))
  }

  /** Every row after serving row `k` of package `id`. */
  function CountedRows(rows: seq<Package>, id: string, k: nat): (after: seq<Package>) {
    seq(|rows|, i requires 0 <= i < |rows| => Counted(rows[i], id, i == k))
  }

  /** `download($id, $version)` on the store's table, in place. */
  method Download(table: array<Package>, id: string, version: string) returns (resp: DownloadResponse)
    modifies table
    ensures (resp, table[..]) == DownloadSpec(old(table[..]), id, version)
  {
    var found := FindFirst(table[..], id, version);
    if found.None? {
      return Text("not found", 404);
    }
    CountDownload(table, id, found.value);
    resp := Nupkg(found.value);
  }

  /** The two counter updates of a served download of row `k`: its own
    * `version_download_count`, then the `download_count` of every row of package `id`. */
  method CountDownload(table: array<Package>, id: string, k: nat)
    requires k < table.Length
    modifies table
    ensures table[..] == CountedRows(old(table[..]), id, k)
  {
    ghost var rows := table[..];
    ghost var served := rows[k := rows[k].(versionDownloadCount := rows[k].versionDownloadCount + 1)];
    ghost var target := CountedRows(rows, id, k);
    table[k] := table[k].(versionDownloadCount := table[k].versionDownloadCount + 1);
    for i := 0 to table.Length
      invariant forall j :: 0 <= j < i ==> table[j] == target[j]
      invariant forall j :: i <= j < table.Length ==> table[j] == served[j]
    {
      if table[i].packageId == id {
        table[i] := table[i].(downloadCount := table[i].downloadCount + 1);
      }
    }
    assert table[..] == target;
  }

  function TotalVersionDownloads(rows: seq<Package>): (total: nat)
    decreases |rows|
  {
    if rows == [] then 0 else TotalVersionDownloads(rows[..|rows| - 1]) + rows[|rows| - 1].versionDownloadCount
  }

  function TotalDownloads(rows: seq<Package>): (total: nat)
    decreases |rows|
  {
    if rows == [] then 0 else TotalDownloads(rows[..|rows| - 1]) + rows[|rows| - 1].downloadCount
  }

  /** The number of rows (versions) of package `id`. */
  function VersionCount(rows: seq<Package>, id: string): (n: nat)
    decreases |rows|
  {
    if rows == [] then 0
    else VersionCount(rows[..|rows| - 1], id) + (if rows[|rows| - 1].packageId == id then 1 else 0)
  }

  lemma {:induction false} TotalsAfterCounting(rows: seq<Package>, after: seq<Package>, id: string, k: nat)
    requires |after| == |rows|
    requires forall i :: 0 <= i < |rows| ==>
               after[i].versionDownloadCount == rows[i].versionDownloadCount + (if i == k then 1 else 0)
    requires forall i :: 0 <= i < |rows| ==>
               after[i].downloadCount == rows[i].downloadCount + (if rows[i].packageId == id then 1 else 0)
    ensures TotalVersionDownloads(after) == TotalVersionDownloads(rows) + (if k < |rows| then 1 else 0)
    ensures TotalDownloads(after) == TotalDownloads(rows) + VersionCount(rows, id)
    decreases |rows|
  {
    if rows != [] {
      var n := |rows| - 1;
      TotalsAfterCounting(rows[..n], after[..n], id, k);
    }
  }

  /** A served download adds exactly one to the sum of `version_download_count` and, to the
    * sum of `download_count`, the number of versions of that package. */
  lemma DownloadTotals(rows: seq<Package>, id: string, version: string)
    requires FindFirst(rows, id, version).Some?
    ensures TotalVersionDownloads(DownloadSpec(rows, id, version).1) == TotalVersionDownloads(rows) + 1
    ensures TotalDownloads(DownloadSpec(rows, id, version).1) == TotalDownloads(rows) + VersionCount(rows, id)
  {
    TotalsAfterCounting(rows, DownloadSpec(rows, id, version).1, id, FindFirst(rows, id, version).value);
  }
}
