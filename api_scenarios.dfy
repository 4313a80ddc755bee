/**
  * Properties of the controller on concrete requests and tables: how the search term is
  * trimmed, what `$select=Title,Version` emits, how the update lists are read, and which
  * record the update resolution reports for a small table.
  */
module ApiScenarios {
  import opened Wrappers
  import opened PhpBuiltins
  import opened HttpInput
  import opened NugetPackage
  import opened NugetQueryBuilder
  import opened Atom
  import opened ApiController

  /** Whatever the request, trimming the search term again changes nothing. */
  lemma SearchTermIsTrimmed(req: Request)
    ensures Trim(SearchTerm(req), SearchTermTrimChars) == SearchTerm(req)
  {
    TrimIdempotent(GetOr(req, "searchTerm", ""), SearchTermTrimChars);
  }

  /** The character list is literal: a quoted term loses its quotes and also the final `r` of
    * "bar", so a title with "foo baz" matches "'foo bar'". */
  lemma QuotedTermLosesFinalR()
    ensures SearchTerm(map["searchTerm" := "'foo bar'"]) == "foo ba"
    ensures MatchesTerm(Package("Baz", "1.0.0", false, 0, 0, 0, "foo baz", "", "", "", ""), "foo ba")
  {
    var s := "'foo bar'";
    assert SkipLeading(s, SearchTermTrimChars, 1) == 1;
    assert SkipLeading(s, SearchTermTrimChars, 0) == 1;
    assert SkipTrailing(s, SearchTermTrimChars, 1, 7) == 7;
    assert SkipTrailing(s, SearchTermTrimChars, 1, 8) == 7;
    assert SkipTrailing(s, SearchTermTrimChars, 1, 9) == 7;
    assert s[1..7] == "foo ba";
    assert OccursAt("foo baz", "foo ba", 0);
  }

  /** A leading tab is not in the literal list and stays; a trailing `n` is and goes. */
  lemma TabbedTermKeepsTab()
    ensures SearchTerm(map["searchTerm" := "\tjson"]) == "\tjso"
  {
    var j := "\tjson";
    assert SkipLeading(j, SearchTermTrimChars, 0) == 0;
    assert SkipTrailing(j, SearchTermTrimChars, 0, 4) == 4;
    assert SkipTrailing(j, SearchTermTrimChars, 0, 5) == 4;
    assert j[0..4] == "\tjso";
  }

  /** `$select=a,b` for two property names selects exactly those two, in that order, whatever
    * else the mapping table declares (for instance `$select=Title,Version`). */
  lemma SelectTwoProperties(qb: QueryBuilder, a: string, b: string)
    requires qb.IsProperty(a) && qb.IsProperty(b)
    requires ',' !in a && ',' !in b
    requires a != [] && a[0] !in DefaultTrimChars
    ensures SelectedProperties(qb, map["$select" := a + [','] + b]) == [a, b]
  {
    var sel := a + [','] + b;
    assert sel[0] == a[0];
    SelectIsGiven(sel);
    ExplodeTwo(a, b, ',');
    KeepBoth(qb, a, b);
  }

  lemma KeepBoth(qb: QueryBuilder, a: string, b: string)
    requires qb.IsProperty(a) && qb.IsProperty(b)
    ensures ArrayFilter([a, b], qb.PropertyTest()) == [a, b]
  {
    var names := [a, b];
    assert names[..1] == [a];
    assert [a][..0] == [];
  }

  /** A `$select` value that does not start with whitespace counts as given. */
  lemma SelectIsGiven(sel: string)
    requires sel != [] && sel[0] !in DefaultTrimChars
    ensures Has(map["$select" := sel], "$select")
  {
    TrimEmptyIffAllTrimmed(sel, DefaultTrimChars);
  }

  lemma ExplodeTwo(a: string, b: string, d: char)
    requires d !in a && d !in b
    ensures Explode(a + [d] + b, d) == [a, b]
  {
    ExplodeSplitsAtDelimiter(a, b, d);
    ExplodeWithoutDelimiter(b, d);
  }

  /** Entries for `[Title, Version]` carry exactly those two properties, in that order, unless
    * `Title` has no accessor, which fails the request at `Title`. */
  lemma TitleAndVersionEntries(qb: QueryBuilder, pkg: Package)
    requires qb.IsProperty("Title") && qb.IsProperty("Version")
    ensures var r := EntryProperties(qb, pkg, ["Title", "Version"]);
            && (r.Failure? <==> !HasAccessor(qb.mappings["Title"]))
            && (r.Success? ==> |r.value| == 2 && r.value[0].name == "Title" && r.value[1].name == "Version")
  {
    var names := ["Title", "Version"];
    KeepBoth(qb, "Title", "Version");
    EntryPropertiesMeaning(qb, pkg, names, 0);
    EntryPropertiesMeaning(qb, pkg, names, 1);
  }

  /** A property without accessor listed first fails the request, even when a property with an
    * accessor follows. */
  lemma AccessorlessFirstFails(qb: QueryBuilder, pkg: Package, a: string, b: string)
    requires qb.IsProperty(a) && qb.IsProperty(b)
    requires !HasAccessor(qb.mappings[b])
    ensures EntryProperties(qb, pkg, [b, a]) == Failure(b)
  {
    KeepBoth(qb, b, a);
    EntryPropertiesMeaning(qb, pkg, [b, a], 0);
  }

  /** Listed after a property with an accessor, a property without one carries that value. */
  lemma AccessorlessAfterAccessorCarries(qb: QueryBuilder, pkg: Package, a: string, b: string)
    requires qb.IsProperty(a) && qb.IsProperty(b)
    requires HasAccessor(qb.mappings[a]) && !HasAccessor(qb.mappings[b])
    ensures var r := EntryProperties(qb, pkg, [a, b]);
            && r.Success? && |r.value| == 2
            && r.value[1] == Property(b, qb.castType(b, Resolve(qb, qb.mappings[a], pkg, None).value), qb.mappings[b].xmlType)
  {
    var names := [a, b];
    KeepBoth(qb, a, b);
    EntryPropertiesMeaning(qb, pkg, names, 1);
    assert names[..1] == [a];
    assert [a][..0] == [];
  }

  /** Absent update parameters read as one empty id and one empty version, so their lengths
    * agree. */
  lemma AbsentUpdateLists()
    ensures UpdateList(map[], "packageIds") == [""] && UpdateList(map[], "versions") == [""]
  {
    assert Trim("", {'\''}) == "";
  }

  /** Quoted lists of two ids and of one version, such as `packageIds='A|B'` with
    * `versions='1.0'`, read as two ids and one version: the lengths disagree. */
  lemma MismatchedUpdateLists(a: string, b: string, v: string)
    requires a != [] && b != [] && v != []
    requires '|' !in a && '|' !in b && '|' !in v
    requires a[0] != '\'' && b[|b| - 1] != '\'' && v[0] != '\'' && v[|v| - 1] != '\''
    ensures var req := map["packageIds" := "'" + a + "|" + b + "'", "versions" := "'" + v + "'"];
            UpdateList(req, "packageIds") == [a, b] && UpdateList(req, "versions") == [v]
  {
    var req := map["packageIds" := "'" + a + "|" + b + "'", "versions" := "'" + v + "'"];
    QuotedPair(a, b);
    QuotedSingle(v);
    assert GetOr(req, "packageIds", "") == "'" + a + "|" + b + "'";
    assert GetOr(req, "versions", "") == "'" + v + "'";
  }

  lemma QuotedPair(a: string, b: string)
    requires a != [] && b != [] && '|' !in a && '|' !in b
    requires a[0] != '\'' && b[|b| - 1] != '\''
    ensures Explode(Trim("'" + a + "|" + b + "'", {'\''}), '|') == [a, b]
  {
    var ids := a + "|" + b;
    assert ids[0] == a[0] && ids[|ids| - 1] == b[|b| - 1];
    assert "'" + a + "|" + b + "'" == ['\''] + ids + ['\''];
    TrimUnwraps('\'', ids, {'\''});
    assert ids == a + ['|'] + b;
    ExplodeTwo(a, b, '|');
  }

  lemma QuotedSingle(v: string)
    requires v != [] && '|' !in v && v[0] != '\'' && v[|v| - 1] != '\''
    ensures Explode(Trim("'" + v + "'", {'\''}), '|') == [v]
  {
    TrimUnwraps('\'', v, {'\''});
    ExplodeWithoutDelimiter(v, '|');
  }

  function Row(id: string, version: string, isPrerelease: bool, createdAt: int): (p: Package) {
    Package(id, version, isPrerelease, createdAt, 0, 0, "", "", "", "", "")
  }

  /** Package A published as 1.0.0, then 1.1.0, then the prerelease 1.2.0-beta. */
  function ScenarioRows(): (rows: seq<Package>) {
    [Row("A", "1.0.0", false, 1), Row("A", "1.1.0", false, 2), Row("A", "1.2.0-beta", true, 3)]
  }

  /** With 1.0.0 installed and prereleases excluded, the only update is 1.1.0; with
    * prereleases included it is 1.2.0-beta. */
  lemma UpdateScenario(stable: seq<Option<Package>>, all: seq<Option<Package>>)
    requires ValidLookups(ScenarioRows(), ["A"], false, stable)
    requires ValidLookups(ScenarioRows(), ["A"], true, all)
    ensures Emitted(stable, ["1.0.0"]) == [Row("A", "1.1.0", false, 2)]
    ensures Emitted(all, ["1.0.0"]) == [Row("A", "1.2.0-beta", true, 3)]
  {
    var rows := ScenarioRows();
    assert rows[1] in rows && rows[2] in rows;
    assert IsLatestLookup(rows, "A", false, stable[0]);
    assert IsLatestLookup(rows, "A", true, all[0]);
    assert stable[0] == Some(rows[1]);
    assert all[0] == Some(rows[2]);
    assert stable[..0] == [] && all[..0] == [];
  }

  /** With the latest stable version already installed, nothing is reported. */
  lemma NoUpdateWhenLatestInstalled(picks: seq<Option<Package>>)
    requires ValidLookups(ScenarioRows(), ["A"], false, picks)
    ensures Emitted(picks, ["1.1.0"]) == []
  {
    var rows := ScenarioRows();
    assert rows[1] in rows;
    assert IsLatestLookup(rows, "A", false, picks[0]);
    assert picks[0] == Some(rows[1]);
    assert picks[..0] == [];
  }
}
