/**
  * The query builder the controller is given. Its internals (parsing `$filter` and `$orderby`,
  * reading `$top` and `$skip`, casting values) are not part of this model: they are fields of
  * function type, so every statement proved here holds whatever they do. What the controller
  * relies on is explicit: the property mapping table, the list of all properties, and a query
  * as the conjunction of its `where` clauses with an ordering.
  */
module NugetQueryBuilder {
  import opened Wrappers
  import opened NugetPackage
  import PhpBuiltins

  /** One entry of the property mapping table: an optional accessor method (`function`), an
    * optional column (`field`) and an optional XML type tag (`type`). */
  datatype Mapping = Mapping(func: Option<string>, field: Option<string>, xmlType: Option<string>)

  datatype QueryBuilder = QueryBuilder(
    /** Property name to mapping; `isProperty($name)` is membership in this table. */
    mappings: map<string, Mapping>,
    /** `getAllProperties()`, in its own order. */
    allProperties: seq<string>,
    /** `$package->$func()` for an accessor method name. */
    compute: (string, Package) -> Value,
    /** `castType($property, $value)`. */
    castType: (string, Value) -> Value,
    /** The `where` clauses `query($filter, $orderby, $id)` builds from `$filter` and `$id`. */
    filter: (Option<string>, Option<string>, Package) -> bool,
    /** The row order `$orderby` gives to a result set. */
    order: (Option<string>, seq<Package>) -> seq<Package>,
    /** `limit($query, $top, $skip)` applied to the ordered result set. */
    limit: (Option<string>, Option<string>, seq<Package>) -> seq<Package>)
  {
    predicate IsProperty(name: string) {
      name in mappings
    }

    /** `isProperty` as a value, for `array_filter`. */
    function PropertyTest(): (test: string -> bool)
      ensures forall name :: test(name) <==> IsProperty(name)
    {
      name => name in mappings
    }

    /** `query($filter, $orderby, $id)`. */
    function BaseQuery(filter: Option<string>, orderBy: Option<string>, id: Option<string>): (q: Query)
      ensures q.orderBy == orderBy
      ensures forall p :: q.where(p) == this.filter(filter, id, p)
    {
      Query(p => this.filter(filter, id, p), orderBy)
    }

    /** What the controller needs from the builder's paging: `order` only rearranges the rows it
      * is given, and `limit` returns only rows it is given. */
    ghost predicate PagesSoundly() {
      && (forall o, s :: multiset(order(o, s)) == multiset(s))
      && (forall t, k, s, p :: p in limit(t, k, s) ==> p in s)
    }

    /** `limit($query, $top, $skip)->get()`: the page of the ordered, filtered rows. With a
      * builder that pages soundly, every row of the page is a row of the table that the
      * query selects. */
    function Page(q: Query, top: Option<string>, skip: Option<string>, rows: seq<Package>): (page: seq<Package>)
      ensures PagesSoundly() ==> forall p :: p in page ==> p in rows && q.where(p)
    {
      var ordered := order(q.orderBy, q.Matching(rows));
      assert PagesSoundly() ==> forall p :: p in ordered ==> p in q.Matching(rows) by {
        if PagesSoundly() {
          forall p | p in ordered ensures p in q.Matching(rows) {
            assert multiset(ordered)[p] > 0;
          }
        }
      }
      limit(top, skip, ordered)
    }
  }

  /** A query: the conjunction of its `where` clauses, and its `$orderby`. */
  datatype Query = Query(where: Package -> bool, orderBy: Option<string>) {
    /** `->where(...)`: one more clause, and-ed with those already there. */
    function Where(clause: Package -> bool): (q: Query)
      ensures q.orderBy == orderBy
      ensures forall p :: q.where(p) == (where(p) && clause(p))
    {
      Query(p => where(p) && clause(p), orderBy)
    }

    /** The rows the query selects, in table order. */
    function Matching(rows: seq<Package>): (selected: seq<Package>)
      ensures forall p :: p in selected <==> p in rows && where(p)
    {
      PhpBuiltins.ArrayFilter(rows, where)
    }

    /** `->count()`: the number of selected rows, before any page is cut. */
    function Count(rows: seq<Package>): (n: nat)
      ensures n <= |rows|
      ensures n == 0 <==> forall p :: p in rows ==> !where(p)
    {
      assert Matching(rows) != [] ==> Matching(rows)[0] in Matching(rows);
      |Matching(rows)|
    }
  }

  /** One more `->where` clause narrows the selection: the rows of `q.Where(clause)` are the
    * rows of `q` that also meet `clause`, still in table order. */
  lemma {:induction false} WhereNarrows(q: Query, clause: Package -> bool, rows: seq<Package>)
    ensures q.Where(clause).Matching(rows) == PhpBuiltins.ArrayFilter(q.Matching(rows), clause)
    decreases |rows|
  {
    if rows != [] {
      var init := rows[..|rows| - 1];
      var last := rows[|rows| - 1];
      WhereNarrows(q, clause, init);
      PhpBuiltins.ArrayFilterAppend(q.Matching(init), if q.where(last) then [last] else [], clause);
      if q.where(last) {
        assert PhpBuiltins.ArrayFilter([last], clause) == PhpBuiltins.ArrayFilter([], clause) + (if clause(last) then [last] else []) by {
          assert [last][..0] == [];
        }
      }
    }
  }
}
