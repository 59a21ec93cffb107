/** The conversion of the archived Klein 2017 portal lists into the single
    table of transparency and open data portals
    (tools/harvest/archive/klein_2017/klein_2017.py). The table's column
    list, read from the data package, is a parameter `schema`; the IBGE
    municipality table is the one of module `Ibge`. */
module Klein {
  import opened Wrappers
  import opened Values
  import opened Seqs
  import opened Frames
  import Ibge

  // ---------------------------------------------------------------------
  // The two archived lists

  /** Renaming of the state list's columns. */
  const StateNames: map<string, string> := map["uf" := "state_code", "tipo" := "type"]

  /** Renaming of the municipal list's columns. */
  const MunicipalNames: map<string, string> :=
    map["uf" := "state_code", "município" := "municipality", "tipo" := "type", "observação" := "notes"]

  /** `g` is `raw` without column `dropped`, every other column under its
      new name with its cells, and the constant columns `sphere` and
      `branch` (the latter always `executive`). */
  predicate Prepared(raw: Frame, g: Frame, dropped: string, names: map<string, string>, sphere: string)
  {
    && |g.rows| == |raw.rows|
    && dropped !in g.columns
    && "sphere" in g.columns && "branch" in g.columns
    && (forall i :: 0 <= i < |g.rows| ==> At(g, i, "sphere") == Str(sphere) && At(g, i, "branch") == Str("executive"))
    && (forall i, c ::
          (0 <= i < |raw.rows| && c in raw.columns && c != dropped
           && Renamed(names, c) != "sphere" && Renamed(names, c) != "branch") ==>
          Renamed(names, c) in g.columns && At(g, i, Renamed(names, c)) == At(raw, i, c))
    && (forall c :: c in g.columns ==>
          c == "sphere" || c == "branch" || exists d :: d in raw.columns && d != dropped && Renamed(names, d) == c)
  }

  /** Drop one column, rename the others, tag every row with its sphere
      and branch. */
  function Prepare(raw: Frame, dropped: string, names: map<string, string>, sphere: string): (r: Result<Frame, Exception>)
    requires dropped !in names.Values && dropped != "sphere" && dropped != "branch"
    ensures r.Err? <==> dropped !in raw.columns || !NoDup(RenamedColumns(Filter(raw.columns, NotIn([dropped])), names))
    ensures dropped !in raw.columns ==> r == Err(KeyError(dropped))
    ensures r.Ok? ==> Prepared(raw, r.value, dropped, names, sphere)
  {
    match Drop(raw, [dropped])
    case Err(e) => Err(e)
    case Ok(d) =>
      match Rename(d, names)
      case Err(e) => Err(e)
      case Ok(n) =>
        var g := Assign(Assign(n, "sphere", Str(sphere)), "branch", Str("executive"));
        PreparedHolds(raw, d, n, dropped, names, sphere);
        Ok(g)
  }

  /** Tagging the renamed frame gives a `Prepared` one. */
  lemma PreparedHolds(raw: Frame, d: Frame, n: Frame, dropped: string, names: map<string, string>, sphere: string)
    requires dropped !in names.Values && dropped != "sphere" && dropped != "branch"
    requires Drop(raw, [dropped]) == Ok(d)
    requires Rename(d, names) == Ok(n)
    ensures Prepared(raw, Assign(Assign(n, "sphere", Str(sphere)), "branch", Str("executive")), dropped, names, sphere)
  {
    RenamedCells(raw, d, n, dropped, names);
    RenamedColumnsFrom(raw, d, n, dropped, names);
    TaggedPrepared(raw, n, dropped, names, sphere);
  }

  /** `n` is `raw` without column `dropped` and with the other columns
      renamed, each keeping its cells. */
  predicate RenamedFrom(raw: Frame, n: Frame, dropped: string, names: map<string, string>)
  {
    && |n.rows| == |raw.rows|
    && (forall c :: c in raw.columns && c != dropped ==> Renamed(names, c) in n.columns)
    && (forall i, c :: 0 <= i < |raw.rows| && c in raw.columns && c != dropped ==>
          At(n, i, Renamed(names, c)) == At(raw, i, c))
    && (forall c :: c in n.columns ==>
          c != dropped && exists e :: e in raw.columns && e != dropped && Renamed(names, e) == c)
  }

  /** Each renamed column comes from a kept column. */
  lemma RenamedColumnsFrom(raw: Frame, d: Frame, n: Frame, dropped: string, names: map<string, string>)
    requires dropped !in names.Values
    requires Drop(raw, [dropped]) == Ok(d)
    requires Rename(d, names) == Ok(n)
    ensures |n.rows| == |raw.rows|
    ensures forall c :: c in n.columns ==>
      c != dropped && exists e :: e in raw.columns && e != dropped && Renamed(names, e) == c
  {
    forall c | c in n.columns
      ensures c != dropped && exists e :: e in raw.columns && e != dropped && Renamed(names, e) == c
    {
      var j :| 0 <= j < |n.columns| && n.columns[j] == c;
      assert d.columns[j] in d.columns;
    }
  }

  /** Tagging a renamed frame with its sphere and branch gives a
      `Prepared` one. */
  lemma TaggedPrepared(raw: Frame, n: Frame, dropped: string, names: map<string, string>, sphere: string)
    requires dropped != "sphere" && dropped != "branch"
    requires RenamedFrom(raw, n, dropped, names)
    ensures Prepared(raw, Assign(Assign(n, "sphere", Str(sphere)), "branch", Str("executive")), dropped, names, sphere)
  {
    var g1 := Assign(n, "sphere", Str(sphere));
    var g := Assign(g1, "branch", Str("executive"));
    AssignColumns(n, "sphere", Str(sphere));
    AssignColumns(g1, "branch", Str("executive"));
    forall i, c | 0 <= i < |raw.rows| && c in raw.columns && c != dropped
        && Renamed(names, c) != "sphere" && Renamed(names, c) != "branch"
      ensures Renamed(names, c) in g.columns && At(g, i, Renamed(names, c)) == At(raw, i, c)
    {
      var e := Renamed(names, c);
      AssignKeeps(n, "sphere", Str(sphere), i, e);
      AssignKeeps(g1, "branch", Str("executive"), i, e);
    }
    forall c | c in g.columns
      ensures c == "sphere" || c == "branch" || exists e :: e in raw.columns && e != dropped && Renamed(names, e) == c
    {
      if c != "sphere" && c != "branch" {
        assert c in n.columns;
      }
    }
  }

  /** The cells survive the drop and the rename. */
  lemma RenamedCells(raw: Frame, d: Frame, n: Frame, dropped: string, names: map<string, string>)
    requires Drop(raw, [dropped]) == Ok(d)
    requires Rename(d, names) == Ok(n)
    ensures forall c :: c in raw.columns && c != dropped ==> Renamed(names, c) in n.columns
    ensures forall i, c :: 0 <= i < |raw.rows| && c in raw.columns && c != dropped ==>
      Renamed(names, c) in n.columns && At(n, i, Renamed(names, c)) == At(raw, i, c)
  {
    forall c | c in raw.columns && c != dropped
      ensures Renamed(names, c) in n.columns
    {
      assert c in d.columns;
      var j := IndexOf(d.columns, c);
      assert n.columns[j] == Renamed(names, c);
    }
    forall i, c | 0 <= i < |raw.rows| && c in raw.columns && c != dropped
      ensures Renamed(names, c) in n.columns && At(n, i, Renamed(names, c)) == At(raw, i, c)
    {
      assert c in d.columns;
      var j := IndexOf(d.columns, c);
      assert n.columns[j] == Renamed(names, c);
    }
  }

  /** `get_state_dataframe`: the state list without `uf_nome`, with `uf` and
      `tipo` renamed, in the state sphere of the executive branch. */
  function GetStateDataframe(raw: Frame): (r: Result<Frame, Exception>)
    ensures r.Err? <==> "uf_nome" !in raw.columns || !NoDup(RenamedColumns(Filter(raw.columns, NotIn(["uf_nome"])), StateNames))
    ensures "uf_nome" !in raw.columns ==> r == Err(KeyError("uf_nome"))
    ensures r.Ok? ==> Prepared(raw, r.value, "uf_nome", StateNames, "state")
  {
    Prepare(raw, "uf_nome", StateNames, "state")
  }

  /** `get_municipality_dataframe`: the municipal list without
      `população`, with `uf`, `município`, `tipo` and `observação` renamed,
      in the municipal sphere of the executive branch. */
  function GetMunicipalityDataframe(raw: Frame): (r: Result<Frame, Exception>)
    ensures r.Err? <==> "população" !in raw.columns || !NoDup(RenamedColumns(Filter(raw.columns, NotIn(["população"])), MunicipalNames))
    ensures "população" !in raw.columns ==> r == Err(KeyError("população"))
    ensures r.Ok? ==> Prepared(raw, r.value, "população", MunicipalNames, "municipal")
  {
    Prepare(raw, "população", MunicipalNames, "municipal")
  }

  // ---------------------------------------------------------------------
  // Concatenation

  /** `concatenate_sources`: an empty frame with the schema's columns,
      then the given frames. The schema's columns come first, in order,
      followed by any other column of the frames; every row of every frame
      is kept, in order, with its cells. */
  function ConcatenateSources(schema: seq<string>, frames: seq<Frame>): (r: Frame)
    ensures |schema| <= |r.columns| && r.columns[..|schema|] == schema
    ensures forall k, c :: 0 <= k < |frames| && c in frames[k].columns ==> c in r.columns
    ensures |r.rows| == RowCount(frames)
    ensures forall k :: 0 <= k < |frames| ==> StackedAt(r, frames[k], Offset(frames, k))
  {
    SourcesSchemaFirst(schema, frames);
    SourcesColumns(schema, frames);
    SourcesRows(schema, frames);
    forall k | 0 <= k < |frames|
      ensures StackedAt(ConcatAll(Sources(schema, frames)), frames[k], Offset(frames, k))
    {
      SourceStacked(schema, frames, k);
    }
    ConcatAll(Sources(schema, frames))
  }

  /** Source `k` sits at its offset in the concatenation. */
  lemma SourceStacked(schema: seq<string>, frames: seq<Frame>, k: int)
    requires 0 <= k < |frames|
    ensures StackedAt(ConcatAll(Sources(schema, frames)), frames[k], Offset(frames, k))
  {
    var all := Sources(schema, frames);
    ConcatAllStacked(all, k + 1);
    SourceOffset(schema, frames, k);
    assert all[k + 1] == frames[k];
  }

  /** The frames `concatenate_sources` stacks: an empty frame with the
      schema's columns, then the sources. */
  function Sources(schema: seq<string>, frames: seq<Frame>): (all: seq<Frame>)
    ensures |all| == |frames| + 1 && all[0] == Frame(schema, [])
    ensures forall k :: 0 <= k < |frames| ==> all[k + 1] == frames[k]
  {
    [Frame(schema, [])] + frames
  }

  /** The schema's columns come first in the concatenation. */
  lemma SourcesSchemaFirst(schema: seq<string>, frames: seq<Frame>)
    ensures |schema| <= |ConcatAll(Sources(schema, frames)).columns|
    ensures ConcatAll(Sources(schema, frames)).columns[..|schema|] == schema
  {
    var all := Sources(schema, frames);
    assert all[0].columns == schema;
  }

  /** Every column of every source is a column of the concatenation. */
  lemma SourcesColumns(schema: seq<string>, frames: seq<Frame>)
    ensures forall k, c :: 0 <= k < |frames| && c in frames[k].columns ==> c in ConcatAll(Sources(schema, frames)).columns
  {
    var all := Sources(schema, frames);
    forall k, c | 0 <= k < |frames| && c in frames[k].columns
      ensures c in ConcatAll(all).columns
    {
      assert all[k + 1] == frames[k];
    }
  }

  /** The concatenation has the sources' rows and no other. */
  lemma SourcesRows(schema: seq<string>, frames: seq<Frame>)
    ensures |ConcatAll(Sources(schema, frames)).rows| == RowCount(frames)
  {
    var all := Sources(schema, frames);
    RowCountEmptyHead(Frame(schema, []), frames);
    StackedRowsLength(all, ConcatAll(all).columns);
  }

  /** Frame `k` of the sources sits where it would without the empty
      head frame. */
  lemma SourceOffset(schema: seq<string>, frames: seq<Frame>, k: int)
    requires 0 <= k < |frames|
    ensures Offset(Sources(schema, frames), k + 1) == Offset(frames, k)
  {
    var head := Frame(schema, []);
    var all := Sources(schema, frames);
    OffsetCountsPrefix(all, k + 1);
    OffsetCountsPrefix(frames, k);
    assert all[..k + 1] == [head] + frames[..k];
    RowCountEmptyHead(head, frames[..k]);
  }

  // ---------------------------------------------------------------------
  // Municipal codes

  /** The IBGE table's columns once renamed for the merge. */
  const CodeColumns: seq<string> := ["municipality_code", "municipality", "state_code"]

  /** The IBGE municipality table with `code`, `name` and `uf` renamed to
      the portal table's names. */
  function CodeFrame(ms: seq<Ibge.Municipality>): (f: Frame)
    ensures f.columns == CodeColumns && |f.rows| == |ms|
    ensures forall j :: 0 <= j < |ms| ==>
      At(f, j, "municipality_code") == ms[j].code && At(f, j, "municipality") == ms[j].name && At(f, j, "state_code") == ms[j].uf
  {
    Frame(CodeColumns, seq(|ms|, j requires 0 <= j < |ms| =>
      map["municipality_code" := ms[j].code, "municipality" := ms[j].name, "state_code" := ms[j].uf]))
  }

  /** The membership test of the merge's shared columns. */
  function InCols(cols: seq<string>): string -> bool
  {
    c => c in cols
  }

  /** Portal row `i` names municipality `m`: same state and same name,
      as far as the portal table has those columns. */
  predicate Matches(table: Frame, i: int, m: Ibge.Municipality)
    requires 0 <= i < |table.rows|
  {
    && ("state_code" in table.columns ==> At(table, i, "state_code") == m.uf)
    && ("municipality" in table.columns ==> At(table, i, "municipality") == m.name)
  }

  /** Portal row `i` names no municipality. */
  predicate NamesNone(table: Frame, i: int, ms: seq<Ibge.Municipality>)
    requires 0 <= i < |table.rows|
  {
    forall j :: 0 <= j < |ms| ==> !Matches(table, i, ms[j])
  }

  /** Output row `n` carries the cells of portal row `i`, except the code. */
  predicate CarriesRow(out: Frame, n: int, table: Frame, i: int)
    requires 0 <= n < |out.rows| && 0 <= i < |table.rows|
  {
    forall c :: c in out.columns && c in table.columns && c != "municipality_code" ==> At(out, n, c) == At(table, i, c)
  }

  /** The code of output row `n` is that of a municipality portal row `i`
      names, or missing when it names none. */
  predicate CodeFor(out: Frame, n: int, table: Frame, i: int, ms: seq<Ibge.Municipality>)
    requires 0 <= n < |out.rows| && 0 <= i < |table.rows|
  {
    "municipality_code" in out.columns ==>
      || (exists j :: 0 <= j < |ms| && Matches(table, i, ms[j]) && At(out, n, "municipality_code") == ms[j].code)
      || (NamesNone(table, i, ms) && At(out, n, "municipality_code") == Null)
  }

  /** Output row `n` is portal row `i` with the code of a municipality it
      names, or with none. */
  predicate FromSomeRow(out: Frame, n: int, table: Frame, ms: seq<Ibge.Municipality>)
    requires 0 <= n < |out.rows|
  {
    exists i :: 0 <= i < |table.rows| && CarriesRow(out, n, table, i) && CodeFor(out, n, table, i, ms)
  }

  /** Some output row is portal row `i` with code `code`. */
  predicate GivesRow(out: Frame, table: Frame, i: int, code: Val)
    requires 0 <= i < |table.rows|
  {
    exists n :: 0 <= n < |out.rows| && CarriesRow(out, n, table, i)
      && ("municipality_code" in out.columns ==> At(out, n, "municipality_code") == code)
  }

  /** `d` is the portal table without its code column. */
  ghost predicate CodeDropped(table: Frame, d: Frame)
  {
    && |d.rows| == |table.rows|
    && (forall c :: c in d.columns <==> c in table.columns && c != "municipality_code")
    && (forall i, c :: 0 <= i < |table.rows| && c in d.columns ==> At(d, i, c) == At(table, i, c))
  }

  /** Dropping the code column gives a `CodeDropped` frame. */
  lemma CodeDroppedHolds(table: Frame, d: Frame)
    requires Drop(table, ["municipality_code"]) == Ok(d)
    ensures CodeDropped(table, d)
  {
  }

  /** `m` is the left merge of `d` and `right` on `on`: every row comes
      from a left row, every matching pair is joined, and every left row
      without partner is kept. */
  ghost predicate LeftMerged(d: Frame, right: Frame, on: seq<string>, m: Frame)
  {
    && m.columns == MergedColumns(d, right, on)
    && (forall x :: x in m.rows ==> exists i :: 0 <= i < |d.rows| && x in RowsFor(d, i, right, on, LeftJoin))
    && (forall i, j :: 0 <= i < |d.rows| && 0 <= j < |right.rows| && KeyMatch(d, i, right, j, on) ==>
          Joined(d, i, right, j, on) in m.rows)
    && (forall i :: 0 <= i < |d.rows| && (forall j :: 0 <= j < |right.rows| ==> !KeyMatch(d, i, right, j, on)) ==>
          LeftOnly(d, i, right, on) in m.rows)
  }

  /** A successful left merge is `LeftMerged`. */
  lemma LeftMergedHolds(d: Frame, right: Frame, on: seq<string>)
    requires Merge(d, right, on, LeftJoin).Ok?
    ensures LeftMerged(d, right, on, Merge(d, right, on, LeftJoin).value)
  {
  }

  /** `out` is `m` reordered to the columns `schema`. */
  ghost predicate SelectedFrom(m: Frame, schema: seq<string>, out: Frame)
  {
    && out.columns == schema && |out.rows| == |m.rows|
    && (forall n, c :: 0 <= n < |m.rows| && c in schema ==> At(out, n, c) == At(m, n, c))
  }

  /** The merge keys: state and name, as far as the portal table has them. */
  ghost predicate SharedKeys(table: Frame, on: seq<string>)
  {
    forall c :: c in on <==> c in table.columns && (c == "municipality" || c == "state_code")
  }

  /** `set_municipal_codes`: discard the portal table's code column, left
      merge with the IBGE table on the columns both have (state and
      municipality name), and reorder to the schema. A portal row gets one
      output row per municipality it names, or one with the code missing
      when it names none. */
  function SetMunicipalCodes(table: Frame, ms: seq<Ibge.Municipality>, schema: seq<string>): (r: Result<Frame, Exception>)
    ensures r.Err? <==>
      || "municipality_code" !in table.columns
      || ("state_code" !in table.columns && "municipality" !in table.columns)
      || (exists c :: c in schema && c !in table.columns && c !in CodeColumns)
      || !NoDup(schema)
    ensures "municipality_code" !in table.columns ==> r == Err(KeyError("municipality_code"))
    ensures r.Ok? ==> r.value.columns == schema
    ensures r.Ok? ==> forall n :: 0 <= n < |r.value.rows| ==> FromSomeRow(r.value, n, table, ms)
    ensures r.Ok? ==> forall i, j :: 0 <= i < |table.rows| && 0 <= j < |ms| && Matches(table, i, ms[j]) ==>
      GivesRow(r.value, table, i, ms[j].code)
    ensures r.Ok? ==> forall i :: 0 <= i < |table.rows| && NamesNone(table, i, ms) ==> GivesRow(r.value, table, i, Null)
  {
    match Drop(table, ["municipality_code"])
    case Err(e) => Err(e)
    case Ok(d) =>
      CodeDroppedHolds(table, d);
      MergeMunicipalCodes(table, d, ms, schema)
  }

  /** `set_municipal_codes` once the code column `d` lacks is dropped: the
      merge with the IBGE table and the reordering to the schema. */
  function MergeMunicipalCodes(table: Frame, d: Frame, ms: seq<Ibge.Municipality>, schema: seq<string>): (r: Result<Frame, Exception>)
    requires CodeDropped(table, d)
    ensures r.Err? <==>
      || ("state_code" !in table.columns && "municipality" !in table.columns)
      || (exists c :: c in schema && c !in table.columns && c !in CodeColumns)
      || !NoDup(schema)
    ensures r.Ok? ==> r.value.columns == schema
    ensures r.Ok? ==> forall n :: 0 <= n < |r.value.rows| ==> FromSomeRow(r.value, n, table, ms)
    ensures r.Ok? ==> forall i, j :: 0 <= i < |table.rows| && 0 <= j < |ms| && Matches(table, i, ms[j]) ==>
      GivesRow(r.value, table, i, ms[j].code)
    ensures r.Ok? ==> forall i :: 0 <= i < |table.rows| && NamesNone(table, i, ms) ==> GivesRow(r.value, table, i, Null)
  {
    var right := CodeFrame(ms);
    var on := Filter(d.columns, InCols(right.columns));
    OnIsShared(table, d, on);
    if |on| == 0 then
      assert "state_code" in table.columns ==> "state_code" in on;
      assert "municipality" in table.columns ==> "municipality" in on;
      Err(ValueError("No common columns to perform merge on"))
    else
      assert "state_code" in table.columns || "municipality" in table.columns by {
        assert on[0] in on;
      }
      assert !exists c :: c in right.columns && c !in on && c in d.columns;
      LeftMergedHolds(d, right, on);
      var m := Merge(d, right, on, LeftJoin).value;
      MergedColumnsCover(table, d, right, on, m);
      match Select(m, schema)
      case Err(e) => Err(e)
      case Ok(out) =>
        CodesSet(table, d, ms, on, m, schema, out);
        Ok(out)
  }

  /** The columns both sides have are the merge keys. */
  lemma OnIsShared(table: Frame, d: Frame, on: seq<string>)
    requires CodeDropped(table, d)
    requires on == Filter(d.columns, InCols(CodeColumns))
    ensures SharedKeys(table, on)
  {
    forall c | c in table.columns && (c == "municipality" || c == "state_code")
      ensures c in on
    {
      assert c in d.columns;
    }
  }

  /** The merged frame has every column of the portal table and of the
      renamed IBGE table. */
  lemma MergedColumnsCover(table: Frame, d: Frame, right: Frame, on: seq<string>, m: Frame)
    requires CodeDropped(table, d)
    requires right.columns == CodeColumns
    requires m.columns == MergedColumns(d, right, on)
    requires SharedKeys(table, on)
    ensures forall c :: c in m.columns <==> c in table.columns || c in CodeColumns
  {
    forall c | c in table.columns || c in CodeColumns
      ensures c in m.columns
    {
      if c !in d.columns {
        assert c in Filter(right.columns, NotIn(on));
      }
    }
  }

  /** The merge's key test is `Matches`. */
  lemma MatchesKeys(table: Frame, d: Frame, ms: seq<Ibge.Municipality>, on: seq<string>, i: int, j: int)
    requires CodeDropped(table, d)
    requires SharedKeys(table, on)
    requires 0 <= i < |table.rows| && 0 <= j < |ms|
    ensures KeyMatch(d, i, CodeFrame(ms), j, on) <==> Matches(table, i, ms[j])
  {
    if "state_code" in table.columns {
      assert "state_code" in d.columns;
    }
    if "municipality" in table.columns {
      assert "municipality" in d.columns;
    }
  }

  /** A joined row carries the portal row's cells and the municipality's
      code. */
  lemma JoinedCells(table: Frame, d: Frame, ms: seq<Ibge.Municipality>, on: seq<string>, i: int, j: int)
    requires CodeDropped(table, d)
    requires SharedKeys(table, on)
    requires 0 <= i < |table.rows| && 0 <= j < |ms|
    ensures forall c :: c in table.columns && c != "municipality_code" ==>
      Cell(Joined(d, i, CodeFrame(ms), j, on), c) == At(table, i, c)
    ensures Cell(Joined(d, i, CodeFrame(ms), j, on), "municipality_code") == ms[j].code
  {
    var right := CodeFrame(ms);
    assert "municipality_code" !in d.columns;
    assert "municipality_code" in MergedColumns(d, right, on) by {
      assert "municipality_code" in Filter(right.columns, NotIn(on));
    }
    forall c | c in table.columns && c != "municipality_code"
      ensures Cell(Joined(d, i, right, j, on), c) == At(table, i, c)
    {
      assert c in d.columns;
    }
  }

  /** A row kept without partner carries the portal row's cells and a
      missing code. */
  lemma LeftOnlyCells(table: Frame, d: Frame, ms: seq<Ibge.Municipality>, on: seq<string>, i: int)
    requires CodeDropped(table, d)
    requires 0 <= i < |table.rows|
    ensures forall c :: c in table.columns && c != "municipality_code" ==>
      Cell(LeftOnly(d, i, CodeFrame(ms), on), c) == At(table, i, c)
    ensures Cell(LeftOnly(d, i, CodeFrame(ms), on), "municipality_code") == Null
  {
    forall c | c in table.columns && c != "municipality_code"
      ensures Cell(LeftOnly(d, i, CodeFrame(ms), on), c) == At(table, i, c)
    {
      assert c in d.columns;
    }
  }

  /** The three row properties of `SetMunicipalCodes`. */
  lemma CodesSet(table: Frame, d: Frame, ms: seq<Ibge.Municipality>, on: seq<string>, m: Frame, schema: seq<string>, out: Frame)
    requires CodeDropped(table, d)
    requires SharedKeys(table, on)
    requires LeftMerged(d, CodeFrame(ms), on, m)
    requires SelectedFrom(m, schema, out)
    ensures forall n :: 0 <= n < |out.rows| ==> FromSomeRow(out, n, table, ms)
    ensures forall i, j :: 0 <= i < |table.rows| && 0 <= j < |ms| && Matches(table, i, ms[j]) ==>
      GivesRow(out, table, i, ms[j].code)
    ensures forall i :: 0 <= i < |table.rows| && NamesNone(table, i, ms) ==> GivesRow(out, table, i, Null)
  {
    forall n | 0 <= n < |out.rows|
      ensures FromSomeRow(out, n, table, ms)
    {
      OutRowFrom(table, d, ms, on, m, schema, out, n);
    }
    forall i, j | 0 <= i < |table.rows| && 0 <= j < |ms| && Matches(table, i, ms[j])
      ensures GivesRow(out, table, i, ms[j].code)
    {
      JoinedRowOut(table, d, ms, on, m, schema, out, i, j);
    }
    forall i | 0 <= i < |table.rows| && NamesNone(table, i, ms)
      ensures GivesRow(out, table, i, Null)
    {
      LeftRowOut(table, d, ms, on, m, schema, out, i);
    }
  }

  /** Output row `n` comes from a portal row. */
  lemma OutRowFrom(table: Frame, d: Frame, ms: seq<Ibge.Municipality>, on: seq<string>, m: Frame, schema: seq<string>, out: Frame, n: int)
    requires CodeDropped(table, d)
    requires SharedKeys(table, on)
    requires LeftMerged(d, CodeFrame(ms), on, m)
    requires SelectedFrom(m, schema, out)
    requires 0 <= n < |out.rows|
    ensures FromSomeRow(out, n, table, ms)
  {
    var right := CodeFrame(ms);
    var x := m.rows[n];
    assert x in m.rows;
    var i :| 0 <= i < |d.rows| && x in RowsFor(d, i, right, on, LeftJoin);
    var joined := JoinFrom(d, i, right, on, 0);
    if x in joined {
      var j :| 0 <= j < |right.rows| && KeyMatch(d, i, right, j, on) && x == Joined(d, i, right, j, on);
      JoinedCells(table, d, ms, on, i, j);
      MatchesKeys(table, d, ms, on, i, j);
      assert CarriesRow(out, n, table, i);
      assert CodeFor(out, n, table, i, ms);
    } else {
      assert x == LeftOnly(d, i, right, on);
      LeftOnlyCells(table, d, ms, on, i);
      NoPartner(d, i, right, on);
      forall j | 0 <= j < |ms|
        ensures !Matches(table, i, ms[j])
      {
        MatchesKeys(table, d, ms, on, i, j);
      }
      assert CarriesRow(out, n, table, i);
      assert CodeFor(out, n, table, i, ms);
    }
  }

  /** Portal row `i` and a municipality it names give an output row. */
  lemma JoinedRowOut(table: Frame, d: Frame, ms: seq<Ibge.Municipality>, on: seq<string>, m: Frame, schema: seq<string>, out: Frame, i: int, j: int)
    requires CodeDropped(table, d)
    requires SharedKeys(table, on)
    requires LeftMerged(d, CodeFrame(ms), on, m)
    requires SelectedFrom(m, schema, out)
    requires 0 <= i < |table.rows| && 0 <= j < |ms| && Matches(table, i, ms[j])
    ensures GivesRow(out, table, i, ms[j].code)
  {
    var right := CodeFrame(ms);
    MatchesKeys(table, d, ms, on, i, j);
    var x := Joined(d, i, right, j, on);
    assert x in m.rows;
    var n :| 0 <= n < |m.rows| && m.rows[n] == x;
    JoinedCells(table, d, ms, on, i, j);
    assert CarriesRow(out, n, table, i);
  }

  /** Portal row `i` naming no municipality gives an output row with the
      code missing. */
  lemma LeftRowOut(table: Frame, d: Frame, ms: seq<Ibge.Municipality>, on: seq<string>, m: Frame, schema: seq<string>, out: Frame, i: int)
    requires CodeDropped(table, d)
    requires SharedKeys(table, on)
    requires LeftMerged(d, CodeFrame(ms), on, m)
    requires SelectedFrom(m, schema, out)
    requires 0 <= i < |table.rows| && NamesNone(table, i, ms)
    ensures GivesRow(out, table, i, Null)
  {
    var right := CodeFrame(ms);
    forall j | 0 <= j < |right.rows|
      ensures !KeyMatch(d, i, right, j, on)
    {
      MatchesKeys(table, d, ms, on, i, j);
    }
    var x := LeftOnly(d, i, right, on);
    assert x in m.rows;
    var n :| 0 <= n < |m.rows| && m.rows[n] == x;
    LeftOnlyCells(table, d, ms, on, i);
    assert CarriesRow(out, n, table, i);
  }

  // ---------------------------------------------------------------------
  // Saving

  /** The index of the portal table: one portal per state, municipality,
      sphere and branch. */
  const IndexColumns: seq<string> := ["state_code", "municipality_code", "sphere", "branch"]

  /** `save_and_merge_existing_data`, without the file writing: with no
      published table, the new one reordered to the schema; otherwise the
      published rows, keyed by the index columns, each updated with the
      non-missing cells of the new row with the same key, reordered to the
      schema. New rows whose key is not published are not added. */
  function SaveAndMergeExistingData(table: Frame, existing: Option<Frame>, schema: seq<string>): (r: Result<Frame, Exception>)
    ensures existing.None? ==> (r.Err? <==> (exists c :: c in schema && c !in table.columns) || !NoDup(schema))
    ensures existing.None? && r.Ok? ==> r.value.columns == schema && |r.value.rows| == |table.rows|
    ensures existing.None? && r.Ok? ==> forall i, c :: 0 <= i < |table.rows| && c in schema ==> At(r.value, i, c) == At(table, i, c)
    ensures existing.Some? ==> (r.Err? <==>
      || (exists c :: c in IndexColumns && (c !in existing.value.columns || c !in table.columns))
      || !UniqueKeys(table, IndexColumns)
      || (exists c :: c in schema && c !in IndexColumns && c !in existing.value.columns)
      || !NoDup(schema))
    ensures existing.Some? && r.Ok? ==> SavedFrom(table, existing.value, schema, r.value)
  {
    match existing
    case None => Select(table, schema)
    case Some(published) => UpdatePublished(table, published, schema)
  }

  /** `out` is the published table updated by the new `table`: the
      schema's columns and the published rows in their order, each keeping
      its index cells; a row whose key the new table has takes that row's
      non-missing cells in the columns both tables have, and a row whose
      key it lacks keeps all its cells. */
  ghost predicate SavedFrom(table: Frame, published: Frame, schema: seq<string>, out: Frame)
  {
    && out.columns == schema && |out.rows| == |published.rows|
    && (forall i, c :: 0 <= i < |out.rows| && c in schema && c in IndexColumns ==>
          At(out, i, c) == At(published, i, c))
    && (forall i, j, c ::
          (0 <= i < |published.rows| && 0 <= j < |table.rows| && c in schema
           && KeyOf(table, j, IndexColumns) == KeyOf(published, i, IndexColumns)) ==>
          At(out, i, c) == (if c !in IndexColumns && c in published.columns && c in table.columns && At(table, j, c) != Null
                            then At(table, j, c) else At(published, i, c)))
    && (forall i, c ::
          (0 <= i < |published.rows| && c in schema
           && (forall j :: 0 <= j < |table.rows| ==> KeyOf(table, j, IndexColumns) != KeyOf(published, i, IndexColumns))) ==>
          At(out, i, c) == At(published, i, c))
  }

  /** The published table updated by the new one on the index columns,
      reordered to the schema. */
  function UpdatePublished(table: Frame, published: Frame, schema: seq<string>): (r: Result<Frame, Exception>)
    ensures r.Err? <==>
      || (exists c :: c in IndexColumns && (c !in published.columns || c !in table.columns))
      || !UniqueKeys(table, IndexColumns)
      || (exists c :: c in schema && c !in IndexColumns && c !in published.columns)
      || !NoDup(schema)
    ensures r.Ok? ==> SavedFrom(table, published, schema, r.value)
  {
    match UpdateByKey(published, table, IndexColumns)
    case Err(e) => Err(e)
    case Ok(g) =>
      SelectUpdated(table, published, g, schema)
  }

  /** The updated table reordered to the schema. */
  function SelectUpdated(table: Frame, published: Frame, g: Frame, schema: seq<string>): (r: Result<Frame, Exception>)
    requires UpdatedBy(published, table, IndexColumns, g)
    ensures r.Err? <==> (exists c :: c in schema && c !in IndexColumns && c !in published.columns) || !NoDup(schema)
    ensures r.Ok? ==> SavedFrom(table, published, schema, r.value)
  {
    KeyedColumnsCover(published, IndexColumns);
    var r := Select(g, schema);
    if r.Ok? then
      SelectedHolds(g, schema);
      SavedCells(table, published, g, schema, r.value);
      r
    else r
  }

  /** A successful selection is `SelectedFrom`, and its columns were
      there. */
  lemma SelectedHolds(g: Frame, schema: seq<string>)
    requires Select(g, schema).Ok?
    ensures SelectedFrom(g, schema, Select(g, schema).value)
    ensures forall c :: c in schema ==> c in g.columns
  {
  }

  /** The cells of the saved table: published keys, updated by the new
      table's non-missing cells where the key matches. */
  lemma SavedCells(table: Frame, published: Frame, g: Frame, schema: seq<string>, out: Frame)
    requires UpdatedBy(published, table, IndexColumns, g)
    requires SelectedFrom(g, schema, out) && forall c :: c in schema ==> c in g.columns
    ensures forall i, c :: 0 <= i < |out.rows| && c in schema && c in IndexColumns ==>
      At(out, i, c) == At(published, i, c)
    ensures forall i, j, c ::
      (0 <= i < |published.rows| && 0 <= j < |table.rows| && c in schema
       && KeyOf(table, j, IndexColumns) == KeyOf(published, i, IndexColumns)) ==>
      At(out, i, c) == (if c !in IndexColumns && c in published.columns && c in table.columns && At(table, j, c) != Null
                        then At(table, j, c) else At(published, i, c))
    ensures forall i, c ::
      (0 <= i < |published.rows| && c in schema
       && (forall j :: 0 <= j < |table.rows| ==> KeyOf(table, j, IndexColumns) != KeyOf(published, i, IndexColumns))) ==>
      At(out, i, c) == At(published, i, c)
  {
    KeysKept(published, g, schema, out);
    SavedMatched(table, published, g, schema, out);
    SavedUnmatched(table, published, g, schema, out);
  }

  /** A published row whose key the new table has takes its non-missing
      cells. */
  lemma SavedMatched(table: Frame, published: Frame, g: Frame, schema: seq<string>, out: Frame)
    requires |g.rows| == |published.rows|
    requires forall i, j, c ::
      (0 <= i < |published.rows| && 0 <= j < |table.rows| && c in g.columns
       && KeyOf(table, j, IndexColumns) == KeyOf(published, i, IndexColumns)) ==>
      At(g, i, c) == (if c !in IndexColumns && c in published.columns && c in table.columns && At(table, j, c) != Null
                      then At(table, j, c) else At(published, i, c))
    requires SelectedFrom(g, schema, out) && forall c :: c in schema ==> c in g.columns
    ensures forall i, j, c ::
      (0 <= i < |published.rows| && 0 <= j < |table.rows| && c in schema
       && KeyOf(table, j, IndexColumns) == KeyOf(published, i, IndexColumns)) ==>
      At(out, i, c) == (if c !in IndexColumns && c in published.columns && c in table.columns && At(table, j, c) != Null
                        then At(table, j, c) else At(published, i, c))
  {
    forall i, j, c |
      (0 <= i < |published.rows| && 0 <= j < |table.rows| && c in schema
       && KeyOf(table, j, IndexColumns) == KeyOf(published, i, IndexColumns))
      ensures At(out, i, c) == (if c !in IndexColumns && c in published.columns && c in table.columns && At(table, j, c) != Null
                                then At(table, j, c) else At(published, i, c))
    {
      SavedCell(published, g, schema, out, i, c);
    }
  }

  /** A published row whose key the new table lacks keeps its cells. */
  lemma SavedUnmatched(table: Frame, published: Frame, g: Frame, schema: seq<string>, out: Frame)
    requires |g.rows| == |published.rows|
    requires forall i, c ::
      (0 <= i < |published.rows| && c in g.columns
       && (forall j :: 0 <= j < |table.rows| ==> KeyOf(table, j, IndexColumns) != KeyOf(published, i, IndexColumns))) ==>
      At(g, i, c) == At(published, i, c)
    requires SelectedFrom(g, schema, out) && forall c :: c in schema ==> c in g.columns
    ensures forall i, c ::
      (0 <= i < |published.rows| && c in schema
       && (forall j :: 0 <= j < |table.rows| ==> KeyOf(table, j, IndexColumns) != KeyOf(published, i, IndexColumns))) ==>
      At(out, i, c) == At(published, i, c)
  {
    forall i, c |
      (0 <= i < |published.rows| && c in schema
       && (forall j :: 0 <= j < |table.rows| ==> KeyOf(table, j, IndexColumns) != KeyOf(published, i, IndexColumns)))
      ensures At(out, i, c) == At(published, i, c)
    {
      SavedCell(published, g, schema, out, i, c);
    }
  }

  /** A saved cell is the updated frame's cell. */
  lemma SavedCell(published: Frame, g: Frame, schema: seq<string>, out: Frame, i: int, c: string)
    requires |g.rows| == |published.rows|
    requires SelectedFrom(g, schema, out) && forall c :: c in schema ==> c in g.columns
    requires 0 <= i < |published.rows| && c in schema
    ensures i < |g.rows| && i < |out.rows| && c in g.columns
    ensures At(out, i, c) == At(g, i, c)
  {
  }

  /** The index cells of the updated frame are the published ones. */
  lemma KeysKept(published: Frame, g: Frame, schema: seq<string>, out: Frame)
    requires |g.rows| == |published.rows|
    requires forall i :: 0 <= i < |published.rows| ==> KeyOf(g, i, IndexColumns) == KeyOf(published, i, IndexColumns)
    requires SelectedFrom(g, schema, out) && forall c :: c in schema ==> c in g.columns
    ensures forall i, c :: 0 <= i < |out.rows| && c in schema && c in IndexColumns ==> At(out, i, c) == At(published, i, c)
  {
    forall i, c | 0 <= i < |out.rows| && c in schema && c in IndexColumns
      ensures At(out, i, c) == At(published, i, c)
    {
      var k := IndexOf(IndexColumns, c);
      assert KeyOf(g, i, IndexColumns)[k] == KeyOf(published, i, IndexColumns)[k];
    }
  }

  /** A portal in the new table whose key is not published is lost: no
      row of the saved table has its key. */
  lemma NewPortalsNotAdded(table: Frame, published: Frame, schema: seq<string>, j: int)
    requires SaveAndMergeExistingData(table, Some(published), schema).Ok?
    requires forall c :: c in IndexColumns ==> c in schema
    requires 0 <= j < |table.rows|
    requires forall i :: 0 <= i < |published.rows| ==> KeyOf(table, j, IndexColumns) != KeyOf(published, i, IndexColumns)
    ensures forall n :: 0 <= n < |SaveAndMergeExistingData(table, Some(published), schema).value.rows| ==>
      KeyOf(SaveAndMergeExistingData(table, Some(published), schema).value, n, IndexColumns) != KeyOf(table, j, IndexColumns)
  {
    var r := SaveAndMergeExistingData(table, Some(published), schema).value;
    SavedKeys(table, published, schema, r);
  }

  /** The saved rows carry the published rows' keys, in order. */
  lemma SavedKeys(table: Frame, published: Frame, schema: seq<string>, out: Frame)
    requires SavedFrom(table, published, schema, out)
    requires forall c :: c in IndexColumns ==> c in schema
    ensures forall n :: 0 <= n < |out.rows| ==> KeyOf(out, n, IndexColumns) == KeyOf(published, n, IndexColumns)
  {
    forall n | 0 <= n < |out.rows|
      ensures KeyOf(out, n, IndexColumns) == KeyOf(published, n, IndexColumns)
    {
      forall k | 0 <= k < |IndexColumns|
        ensures KeyOf(out, n, IndexColumns)[k] == KeyOf(published, n, IndexColumns)[k]
      {
        assert IndexColumns[k] in IndexColumns;
      }
    }
  }
}
