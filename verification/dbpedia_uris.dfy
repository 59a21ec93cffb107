/** The DBPedia and Wikidata URIs of the municipality table
    (tools/harvest/dbpedia/01-dbpedia-municipality-uris.py): the label
    clean-up `remove_parenthesis`, the choice of URI per city and type, and
    `update_column`, which merges a freshly harvested URI column into the
    recorded one. */
module DbpediaUris {
  import opened Wrappers
  import opened Text
  import opened Values
  import opened Seqs
  import DbpediaLinks

  /** `remove_parenthesis` of this script: non-strings pass through; a string
      is cut before its first `(` or `,` and stripped, and one with nothing
      before its first `(` or `,` (the empty string included) makes
      `re.match` return `None`, whose `.group()` raises. */
  function RemoveParenthesis(cell: Val): (r: Result<Val, Exception>)
    ensures !cell.Str? ==> r == Ok(cell)
    ensures cell.Str? ==> (r.Err? <==> cell.s == "" || !DbpediaLinks.NameChar(cell.s[0]))
    ensures r.Err? ==> r.error == AttributeError("group")
    ensures cell.Str? && r.Ok? ==> r.value.Str?
    ensures cell.Str? && r.Ok? ==> forall i :: 0 <= i < |r.value.s| ==> DbpediaLinks.NameChar(r.value.s[i])
  {
    match cell
    case Str(s) =>
      var h := DbpediaLinks.NameHead(s);
      if h == "" then Err(AttributeError("group"))
      else
        DbpediaLinks.RemoveParenthesisCutsAll(s);
        Ok(Str(Strip(h)))
    case _ => Ok(cell)
  }

  /** Where this script's `remove_parenthesis` succeeds, it agrees with the
      one of the links harvester; where it fails, the other one only
      strips. */
  lemma RemoveParenthesisVersionsAgree(s: string)
    ensures RemoveParenthesis(Str(s)).Ok? ==> RemoveParenthesis(Str(s)) == Ok(Str(DbpediaLinks.RemoveParenthesis(s)))
    ensures RemoveParenthesis(Str(s)).Err? ==> DbpediaLinks.RemoveParenthesis(s) == Strip(s)
  {
    if s == "" {
      assert Strip("") == "";
    }
  }

  // ---------------------------------------------------------------------
  // URI types

  const DbpediaPrefix := "http://dbpedia.org/"
  const DbpediaPtPrefix := "http://pt.dbpedia.org/"

  /** The `URI_type` of a city URI: `dbpedia` for the main DBPedia,
      `dbpedia_pt` for the Portuguese one, missing otherwise. A missing URI
      has no `startswith` and raises. */
  function UriType(city: Val): (r: Result<Val, Exception>)
    ensures r.Err? <==> !city.Str?
    ensures r.Err? ==> r.error == AttributeError("startswith")
    ensures city.Str? && StartsWith(city.s, DbpediaPrefix) ==> r == Ok(Str("dbpedia"))
    ensures city.Str? && StartsWith(city.s, DbpediaPtPrefix) ==> r == Ok(Str("dbpedia_pt"))
    ensures city.Str? && !StartsWith(city.s, DbpediaPrefix) && !StartsWith(city.s, DbpediaPtPrefix) ==> r == Ok(Null)
  {
    if !city.Str? then Err(AttributeError("startswith"))
    else if StartsWith(city.s, DbpediaPrefix) then
      UriPrefixesExclusive(city.s);
      Ok(Str("dbpedia"))
    else if StartsWith(city.s, DbpediaPtPrefix) then Ok(Str("dbpedia_pt"))
    else Ok(Null)
  }

  /** No URI has both prefixes: they differ at their eighth character. */
  lemma UriPrefixesExclusive(s: string)
    ensures !(StartsWith(s, DbpediaPrefix) && StartsWith(s, DbpediaPtPrefix))
  {
    if StartsWith(s, DbpediaPrefix) && |DbpediaPtPrefix| <= |s| {
      assert s[7] == s[..|DbpediaPrefix|][7] == 'd';
      assert s[..|DbpediaPtPrefix|][7] == s[7];
      assert DbpediaPtPrefix[7] == 'p';
    }
  }

  // ---------------------------------------------------------------------
  // One URI per city and type

  /** A row of the harvested URIs after the state was replaced by its
      abbreviation: city `name`, `uf`, the `URI` and its `URI_type`. */
  datatype UriRow = UriRow(name: Val, uf: Val, uri: Val, uriType: Val)

  /** `sort_values(by=['uf', 'name', 'URI'])`. */
  function UriOrder(row: UriRow): seq<Val>
  {
    [row.uf, row.name, row.uri]
  }

  /** The `drop_duplicates` subset `['name', 'uf', 'URI_type']`. */
  function CityAndType(row: UriRow): seq<Val>
  {
    [row.name, row.uf, row.uriType]
  }

  /** Sort, then keep the first row per city and URI type: each city keeps
      at most one URI of each type, the least in `(uf, name, URI)` order. */
  function OneUriPerType(rows: seq<UriRow>): (r: seq<UriRow>)
    ensures KeysUnique(r, CityAndType)
    ensures Keys(r, CityAndType) == Keys(rows, CityAndType)
    ensures forall x :: x in r ==> x in rows
    ensures forall x, y :: x in r && y in rows && CityAndType(y) == CityAndType(x) ==>
      KeyLe(UriOrder(x), UriOrder(y))
  {
    var sorted := SortBy(rows, UriOrder);
    var r := KeepFirst(sorted, CityAndType);
    assert forall x :: x in sorted <==> x in rows by {
      assert forall x :: x in sorted <==> x in multiset(sorted);
    }
    KeysPermutation(sorted, rows, CityAndType);
    SubseqMembers(r, sorted);
    forall x, y | x in r && y in rows && CityAndType(y) == CityAndType(x)
      ensures KeyLe(UriOrder(x), UriOrder(y))
    {
      assert y in multiset(rows);
      FirstWithIsLeast(sorted, UriOrder, CityAndType, y);
    }
    r
  }

  /** Reordering does not change the set of keys. */
  lemma KeysPermutation<T, K>(a: seq<T>, b: seq<T>, key: T -> K)
    requires multiset(a) == multiset(b)
    ensures Keys(a, key) == Keys(b, key)
  {
    forall k | k in Keys(a, key)
      ensures k in Keys(b, key)
    {
      var x :| x in a && key(x) == k;
      assert x in multiset(b);
    }
    forall k | k in Keys(b, key)
      ensures k in Keys(a, key)
    {
      var x :| x in b && key(x) == k;
      assert x in multiset(a);
    }
  }

  // ---------------------------------------------------------------------
  // The final table

  /** A row of the municipality table with its URIs. */
  datatype MunicipalityRow = MunicipalityRow(code: Val, name: Val, uf: Val, dbpedia: Val, dbpediaPt: Val, wikidata: Val)

  /** The `drop_duplicates` subset `['name', 'uf']`. */
  function NameAndUf(row: MunicipalityRow): seq<Val>
  {
    [row.name, row.uf]
  }

  /** The last dedup and the size check: one row per city name and state,
      and exactly as many rows as the municipality table has, or the script
      stops on its `assert`. */
  function OneRowPerCity(rows: seq<MunicipalityRow>, municipalities: nat): (r: Result<seq<MunicipalityRow>, Exception>)
    ensures r.Ok? <==> |KeepFirst(rows, NameAndUf)| == municipalities
    ensures r.Err? ==> r.error == AssertionError
    ensures r.Ok? ==> |r.value| == municipalities && KeysUnique(r.value, NameAndUf)
    ensures r.Ok? ==> Keys(r.value, NameAndUf) == Keys(rows, NameAndUf) && IsSubseq(r.value, rows)
    ensures r.Ok? ==> forall x :: x in r.value ==> x == FirstWith(rows, NameAndUf, NameAndUf(x))
    ensures r.Ok? ==> r.value == FirstsOf(rows, NameAndUf)
  {
    var unique := KeepFirst(rows, NameAndUf);
    KeepFirstIsFirstsOf(rows, NameAndUf);
    if |unique| == municipalities then Ok(unique) else Err(AssertionError)
  }

  // ---------------------------------------------------------------------
  // update_column

  /** Python truthiness of a cell as `not new_URI` reads it; a missing cell
      (NaN) is truthy but `pd.isna` catches it. */
  predicate Blank(v: Val)
  {
    v.Null? || v == Int(0) || v == Str("")
  }

  /** A column indexed by municipality code. */
  type Column = map<Val, Val>

  /** The cell at label `k`, or missing. */
  function At(c: Column, k: Val): Val
  {
    if k in c then c[k] else Null
  }

  /** `update_column`: when the recorded table has no such column, the new
      one; otherwise `Series.combine` over the union of both indexes, where
      a new value wins unless it is empty or missing. */
  function UpdateColumn(recorded: Option<Column>, harvested: Column): (r: Column)
    ensures recorded.None? ==> r == harvested
    ensures recorded.Some? ==> r.Keys == recorded.value.Keys + harvested.Keys
    ensures recorded.Some? ==> forall k :: k in r && !Blank(At(harvested, k)) ==> r[k] == harvested[k]
    ensures recorded.Some? ==> forall k :: k in r && Blank(At(harvested, k)) ==> r[k] == At(recorded.value, k)
  {
    match recorded
    case None => harvested
    case Some(o) =>
      map k | k in o.Keys + harvested.Keys :: if Blank(At(harvested, k)) then At(o, k) else harvested[k]
  }

  /** A recorded URI is never erased: where the old column had a value, the
      updated one has a value too. */
  lemma UpdateKeepsValues(recorded: Column, harvested: Column, k: Val)
    requires !Blank(At(recorded, k))
    ensures k in UpdateColumn(Some(recorded), harvested) && !Blank(UpdateColumn(Some(recorded), harvested)[k])
  {
  }

  /** Updating twice with the same harvest is updating once. */
  lemma UpdateColumnIdempotent(recorded: Option<Column>, harvested: Column)
    ensures UpdateColumn(Some(UpdateColumn(recorded, harvested)), harvested) == UpdateColumn(recorded, harvested)
  {
    var once := UpdateColumn(recorded, harvested);
    var twice := UpdateColumn(Some(once), harvested);
    assert twice.Keys == once.Keys;
    forall k | k in once
      ensures twice[k] == once[k]
    {
      if recorded.None? {
        assert k in harvested;
      }
    }
  }
}
