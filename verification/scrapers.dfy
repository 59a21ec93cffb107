/** The harvester base of the website scrapers (tools/harvest/scrapers.py):
    accent removal, the table a harvester starts with, appending a row, and
    filling municipality codes from the IBGE table. Unicode decomposition
    (`unicodedata.normalize("NFD", ·)`) and `unicodedata.combining` are
    parameters `nfd` and `combining`. */
module Scrapers {
  import opened Wrappers
  import opened Text
  import opened Values
  import opened Seqs
  import opened Frames
  import Ibge

  // ---------------------------------------------------------------------
  // remove_accents

  /** The test that keeps a character: it is not a combining mark. */
  function NotCombining(combining: char -> bool): char -> bool
  {
    c => !combining(c)
  }

  /** `remove_accents`: the canonical decomposition of `text` with every
      combining mark left out. */
  function RemoveAccents(text: string, nfd: string -> string, combining: char -> bool): (r: string)
    ensures forall i :: 0 <= i < |r| ==> !combining(r[i])
    ensures IsSubseq(r, nfd(text))
    ensures forall c :: c in nfd(text) && !combining(c) ==> c in r
    ensures forall c :: multiset(r)[c] == if combining(c) then 0 else multiset(nfd(text))[c]
  {
    var r := Filter(nfd(text), NotCombining(combining));
    FilterMultiplicity(nfd(text), NotCombining(combining));
    assert forall i :: 0 <= i < |r| ==> r[i] in r;
    r
  }

  /** A text whose decomposition has no combining mark comes out as that
      decomposition. */
  lemma RemoveAccentsKeepsPlain(text: string, nfd: string -> string, combining: char -> bool)
    requires forall i :: 0 <= i < |nfd(text)| ==> !combining(nfd(text)[i])
    ensures RemoveAccents(text, nfd, combining) == nfd(text)
  {
    FilterKeepsAll(nfd(text), NotCombining(combining));
  }

  /** Filtering with a test every element passes keeps everything. */
  lemma {:induction false} FilterKeepsAll<T>(s: seq<T>, keep: T -> bool)
    requires forall i :: 0 <= i < |s| ==> keep(s[i])
    ensures Filter(s, keep) == s
  {
    if |s| > 0 {
      assert keep(s[0]);
      FilterKeepsAll(s[1..], keep);
      HeadTail(s);
    }
  }

  /** The key names are compared under: lower case, accents removed. */
  function Normalize(s: string, nfd: string -> string, combining: char -> bool): string
  {
    RemoveAccents(Lower(s), nfd, combining)
  }

  /** Lower-casing the upper case of a Latin-1 letter gives its lower case
      (except `ÿ` and `µ`, whose upper cases lie outside Latin-1). */
  lemma LowerOfUpperChar(c: char)
    requires c <= '\U{FF}' && c != '\U{FF}' && c != '\U{B5}'
    ensures LowerChar(UpperChar(c)) == LowerChar(c)
  {
  }

  /** Matching ignores case: a Latin-1 name and its upper case normalize
      alike. `µ` and `ÿ` upper-case outside Latin-1 and `ß` to `SS`, so
      they are left out. */
  lemma NormalizeIgnoresCase(s: string, nfd: string -> string, combining: char -> bool)
    requires forall i :: 0 <= i < |s| ==> s[i] <= '\U{FE}' && s[i] != '\U{B5}' && s[i] != '\U{DF}'
    ensures Normalize(Upper(s), nfd, combining) == Normalize(s, nfd, combining)
  {
    forall i | 0 <= i < |s|
      ensures Lower(Upper(s))[i] == Lower(s)[i]
    {
      LowerOfUpperChar(s[i]);
    }
    assert Lower(Upper(s)) == Lower(s);
  }

  /** Matching ignores accents: with the decompositions Unicode gives,
      `São` and `SAO` normalize alike. */
  lemma NormalizeIgnoresAccents(nfd: string -> string, combining: char -> bool)
    requires nfd(['s', 'ã', 'o']) == ['s', 'a', '\U{303}', 'o'] && nfd("sao") == "sao"
    requires combining('\U{303}') && !combining('s') && !combining('a') && !combining('o')
    ensures Normalize(['S', 'ã', 'o'], nfd, combining) == Normalize("SAO", nfd, combining) == "sao"
  {
    assert Lower(['S', 'ã', 'o']) == ['s', 'ã', 'o'] by {
      assert LowerChar('S') == 's' && LowerChar('ã') == 'ã' && LowerChar('o') == 'o';
    }
    assert Lower("SAO") == "sao" by {
      assert LowerChar('S') == 's' && LowerChar('A') == 'a' && LowerChar('O') == 'o';
    }
    var k := NotCombining(combining);
    assert Filter(['s', 'a', '\U{303}', 'o'], k) == "sao" by {
      assert ['s', 'a', '\U{303}', 'o'][1..] == ['a', '\U{303}', 'o'];
      assert ['a', '\U{303}', 'o'][1..] == ['\U{303}', 'o'];
      assert ['\U{303}', 'o'][1..] == ['o'];
      assert Filter(['o'], k) == ['o'];
    }
    assert Filter("sao", k) == "sao" by {
      assert "sao"[1..] == "ao";
      assert "ao"[1..] == "o";
      assert Filter("o", k) == "o";
    }
  }

  // ---------------------------------------------------------------------
  // Harvester.__init__

  /** What the attribute `schema` holds when `__init__` reads it: nothing
      at all, a false value, or a schema with these field names. */
  datatype SchemaAttr = Unset | Falsy | Fields(names: seq<string>)

  /** A harvester: title, description, schema, the table harvested so far
      and the output folder. */
  datatype Harvester = Harvester(title: Option<string>, description: Option<string>, schema: SchemaAttr, table: Frame, outputFolder: string)

  /** Python truthiness of an optional string argument. */
  predicate Truthy(s: Option<string>)
  {
    s.Some? && s.value != ""
  }

  /** The attribute `schema` after `if schema: self.schema = schema`. */
  function EffectiveSchema(schema: Option<seq<string>>, preset: SchemaAttr): (a: SchemaAttr)
    ensures schema.Some? ==> a == Fields(schema.value)
    ensures schema.None? ==> a == preset
  {
    if schema.Some? then Fields(schema.value) else preset
  }

  /** The starting table as the constructor builds it: it tests the
      attribute `self.schema` but takes the field names from the argument
      `schema`, so a subclass that presets the attribute and passes no
      argument fails on `None.fields`. */
  function InitialTableAsWritten(schema: Option<seq<string>>, preset: SchemaAttr): (r: Result<Frame, Exception>)
    ensures EffectiveSchema(schema, preset).Unset? ==> r == Err(AttributeError("schema"))
    ensures EffectiveSchema(schema, preset).Falsy? ==> r == Ok(Frame([], []))
    ensures EffectiveSchema(schema, preset).Fields? ==>
      (r.Ok? <==> schema.Some?) && (r.Ok? ==> r.value == Frame(schema.value, []))
    ensures r.Err? ==> r.error.AttributeError?
  {
    match EffectiveSchema(schema, preset)
    case Unset => Err(AttributeError("schema"))
    case Falsy => Ok(Frame([], []))
    case Fields(_) =>
      match schema
      case None => Err(AttributeError("fields"))
      case Some(names) => Ok(Frame(names, []))
  }

  /** The starting table as evidently intended: an empty table whose
      columns are the field names of the schema the harvester ends up
      with; no columns when that schema is false. */
  function InitialTable(schema: Option<seq<string>>, preset: SchemaAttr): (r: Result<Frame, Exception>)
    ensures r.Err? <==> EffectiveSchema(schema, preset).Unset?
    ensures r.Err? ==> r.error == AttributeError("schema")
    ensures r.Ok? ==> |r.value.rows| == 0
    ensures EffectiveSchema(schema, preset).Fields? ==> r == Ok(Frame(EffectiveSchema(schema, preset).names, []))
    ensures EffectiveSchema(schema, preset).Falsy? ==> r == Ok(Frame([], []))
  {
    match EffectiveSchema(schema, preset)
    case Unset => Err(AttributeError("schema"))
    case Falsy => Ok(Frame([], []))
    case Fields(names) => Ok(Frame(names, []))
  }

  /** A subclass that sets `self.schema` and calls the constructor
      without a schema argument: the code as written raises, the intended
      constructor starts with the schema's columns. */
  lemma PresetSchemaCounterexample()
    ensures InitialTableAsWritten(None, Fields(["url"])) == Err(AttributeError("fields"))
    ensures InitialTable(None, Fields(["url"])) == Ok(Frame(["url"], []))
  {
  }

  /** Wherever the constructor as written succeeds, the intended one
      builds the same table, and the intended one never fails on a schema
      it has. */
  lemma InitialTableRefines(schema: Option<seq<string>>, preset: SchemaAttr)
    ensures InitialTableAsWritten(schema, preset).Ok? ==> InitialTable(schema, preset) == InitialTableAsWritten(schema, preset)
    ensures !EffectiveSchema(schema, preset).Unset? ==> InitialTable(schema, preset).Ok?
  {
  }

  /** `Harvester.__init__`, as intended: arguments that are given (and
      true) override the class's title, description and schema. */
  function NewHarvester(title: Option<string>, description: Option<string>, schema: Option<seq<string>>,
                        classTitle: Option<string>, classDescription: Option<string>, preset: SchemaAttr,
                        outputFolder: string): (r: Result<Harvester, Exception>)
    ensures r.Err? <==> schema.None? && preset.Unset?
    ensures r.Ok? ==> r.value.title == (if Truthy(title) then title else classTitle)
    ensures r.Ok? ==> r.value.description == (if Truthy(description) then description else classDescription)
    ensures r.Ok? ==> r.value.outputFolder == outputFolder && |r.value.table.rows| == 0
    ensures r.Ok? && schema.Some? ==> r.value.schema == Fields(schema.value) && r.value.table.columns == schema.value
  {
    match InitialTable(schema, preset)
    case Err(e) => Err(e)
    case Ok(table) =>
      Ok(Harvester(
        if Truthy(title) then title else classTitle,
        if Truthy(description) then description else classDescription,
        EffectiveSchema(schema, preset),
        table,
        outputFolder))
  }

  // ---------------------------------------------------------------------
  // append

  /** `append(**kwargs)`: `loc[len(frame)] = kwargs` adds one row at the
      end holding each column's keyword value (missing when not given;
      keywords naming no column are ignored). A frame without columns
      cannot grow. */
  function Append(f: Frame, kwargs: map<string, Val>): (r: Result<Frame, Exception>)
    ensures r.Err? <==> |f.columns| == 0
    ensures r.Err? ==> r.error.ValueError?
    ensures r.Ok? ==> r.value.columns == f.columns && |r.value.rows| == |f.rows| + 1
    ensures r.Ok? ==> r.value.rows[..|f.rows|] == f.rows
    ensures r.Ok? ==> forall i, c :: 0 <= i < |f.rows| ==> At(r.value, i, c) == At(f, i, c)
    ensures r.Ok? ==> forall c :: c in f.columns ==> At(r.value, |f.rows|, c) == (if c in kwargs then kwargs[c] else Null)
  {
    if |f.columns| == 0 then Err(ValueError("cannot set a frame with no defined columns"))
    else
      var row := map c | c in f.columns :: if c in kwargs then kwargs[c] else Null;
      Ok(Frame(f.columns, f.rows + [row]))
  }

  /** Appending to a harvester's fresh table gives a one-row table. */
  lemma AppendToFresh(names: seq<string>, kwargs: map<string, Val>)
    requires |names| > 0
    ensures Append(Frame(names, []), kwargs).Ok?
    ensures |Append(Frame(names, []), kwargs).value.rows| == 1
  {
  }

  // ---------------------------------------------------------------------
  // fill_municipal_codes

  /** The cells of column `c`. */
  function Cells(f: Frame, c: string): (cells: seq<Val>)
    ensures |cells| == |f.rows| && forall i :: 0 <= i < |f.rows| ==> cells[i] == At(f, i, c)
  {
    seq(|f.rows|, i requires 0 <= i < |f.rows| => At(f, i, c))
  }

  /** Every cell is a string. */
  predicate AllStr(cells: seq<Val>)
  {
    forall i :: 0 <= i < |cells| ==> cells[i].Str?
  }

  /** What `.str.lower().apply(remove_accents)` raises on a column holding
      a cell that is not a string: the `.str` accessor refuses a column
      without strings; otherwise the non-string cell reaches
      `unicodedata.normalize`. */
  function StrError(cells: seq<Val>): Exception
  {
    if exists i :: 0 <= i < |cells| && cells[i].Str? then TypeError("normalize() argument 2 must be str")
    else AttributeError("str")
  }

  /** The normalized form of a cell. */
  function NormalizedCell(v: Val, nfd: string -> string, combining: char -> bool): Val
  {
    if v.Str? then Str(Normalize(v.s, nfd, combining)) else Null
  }

  /** `column.str.lower().apply(remove_accents)`. */
  function NormalizeCells(cells: seq<Val>, nfd: string -> string, combining: char -> bool): (r: Result<seq<Val>, Exception>)
    ensures r.Err? <==> !AllStr(cells)
    ensures r.Err? ==> r.error == StrError(cells)
    ensures r.Ok? ==> |r.value| == |cells| && forall i :: 0 <= i < |cells| ==> r.value[i] == NormalizedCell(cells[i], nfd, combining)
  {
    if !AllStr(cells) then Err(StrError(cells))
    else Ok(seq(|cells|, i requires 0 <= i < |cells| => NormalizedCell(cells[i], nfd, combining)))
  }

  /** The names of the IBGE table. */
  function Names(ms: seq<Ibge.Municipality>): (names: seq<Val>)
    ensures |names| == |ms| && forall j :: 0 <= j < |ms| ==> names[j] == ms[j].name
  {
    seq(|ms|, j requires 0 <= j < |ms| => ms[j].name)
  }

  /** The columns of the renamed IBGE table with its normalized names. */
  const CodesColumns: seq<string> := ["state_code", "municipality", "municipality_code", "normalized_name"]

  /** The IBGE table with normalized names, renamed for the merge. */
  function CodesFrame(ms: seq<Ibge.Municipality>, nfd: string -> string, combining: char -> bool): (r: Result<Frame, Exception>)
    ensures r.Err? <==> !AllStr(Names(ms))
    ensures r.Ok? ==> r.value.columns == CodesColumns && |r.value.rows| == |ms|
    ensures r.Ok? ==> forall j :: 0 <= j < |ms| ==>
      && At(r.value, j, "state_code") == ms[j].uf
      && At(r.value, j, "municipality") == ms[j].name
      && At(r.value, j, "municipality_code") == ms[j].code
      && At(r.value, j, "normalized_name") == NormalizedCell(ms[j].name, nfd, combining)
  {
    match NormalizeCells(Names(ms), nfd, combining)
    case Err(e) => Err(e)
    case Ok(norms) =>
      Ok(Frame(CodesColumns, seq(|ms|, j requires 0 <= j < |ms| =>
        map["state_code" := ms[j].uf, "municipality" := ms[j].name,
            "municipality_code" := ms[j].code, "normalized_name" := norms[j]])))
  }

  /** Portal row `i` and municipality `m` are in the same state and have
      the same name up to case and accents. */
  predicate NameMatch(frame: Frame, i: int, m: Ibge.Municipality, nfd: string -> string, combining: char -> bool)
    requires 0 <= i < |frame.rows|
  {
    && At(frame, i, "state_code") == m.uf
    && At(frame, i, "municipality").Str? && m.name.Str?
    && Normalize(At(frame, i, "municipality").s, nfd, combining) == Normalize(m.name.s, nfd, combining)
  }

  /** The cell in column `c` of the row made of portal row `i` and
      municipality `m`: name and code from the IBGE table, everything else
      from the portal row (missing for columns it lacks). */
  function FilledCell(frame: Frame, i: int, m: Ibge.Municipality, c: string, nfd: string -> string, combining: char -> bool): Val
    requires 0 <= i < |frame.rows|
  {
    if c == "municipality" then m.name
    else if c == "municipality_code" then m.code
    else if c == "normalized_name" then NormalizedCell(m.name, nfd, combining)
    else At(frame, i, c)
  }

  /** Output row `n` is made of portal row `i` and municipality `m`. */
  predicate FilledRow(out: Frame, n: int, frame: Frame, i: int, m: Ibge.Municipality, nfd: string -> string, combining: char -> bool)
    requires 0 <= n < |out.rows| && 0 <= i < |frame.rows|
  {
    forall c :: c in out.columns ==> At(out, n, c) == FilledCell(frame, i, m, c, nfd, combining)
  }

  /** Output row `n` is made of a portal row and a municipality it names. */
  predicate FilledFromSome(out: Frame, n: int, frame: Frame, ms: seq<Ibge.Municipality>, nfd: string -> string, combining: char -> bool)
    requires 0 <= n < |out.rows|
  {
    exists i, j :: 0 <= i < |frame.rows| && 0 <= j < |ms| && NameMatch(frame, i, ms[j], nfd, combining)
      && FilledRow(out, n, frame, i, ms[j], nfd, combining)
  }

  /** Some output row is made of portal row `i` and municipality `m`. */
  predicate GivesFilled(out: Frame, frame: Frame, i: int, m: Ibge.Municipality, nfd: string -> string, combining: char -> bool)
    requires 0 <= i < |frame.rows|
  {
    exists n :: 0 <= n < |out.rows| && FilledRow(out, n, frame, i, m, nfd, combining)
  }

  /** The merge keys. */
  const On: seq<string> := ["state_code", "normalized_name"]

  /** `norms` are the normalized municipality names of the portal rows,
      all of which are strings. */
  predicate NormsOf(frame: Frame, norms: seq<Val>, nfd: string -> string, combining: char -> bool)
  {
    && |norms| == |frame.rows|
    && forall i :: 0 <= i < |frame.rows| ==>
         At(frame, i, "municipality").Str? && norms[i] == Str(Normalize(At(frame, i, "municipality").s, nfd, combining))
  }

  /** The left side of the merge: the portal table with its normalized
      names, without name and code. */
  ghost predicate LeftOf(frame: Frame, norms: seq<Val>, left: Frame)
  {
    && |left.rows| == |frame.rows| && |norms| == |frame.rows|
    && (forall c :: c in left.columns <==> (c in frame.columns || c == "normalized_name") && c != "municipality" && c != "municipality_code")
    && (forall i :: 0 <= i < |frame.rows| ==> At(left, i, "normalized_name") == norms[i])
    && (forall i, c :: 0 <= i < |frame.rows| && c != "normalized_name" && c != "municipality" && c != "municipality_code" ==>
          At(left, i, c) == At(frame, i, c))
  }

  /** Setting the normalized names and dropping name and code gives the
      left side. */
  lemma LeftOfHolds(frame: Frame, norms: seq<Val>, left: Frame)
    requires |norms| == |frame.rows|
    requires Drop(SetColumn(frame, "normalized_name", norms), ["municipality", "municipality_code"]) == Ok(left)
    ensures LeftOf(frame, norms, left)
  {
    var named := SetColumn(frame, "normalized_name", norms);
    forall c | (c in frame.columns || c == "normalized_name") && c != "municipality" && c != "municipality_code"
      ensures c in left.columns
    {
      assert c in named.columns;
    }
  }

  /** `fill_municipal_codes`: normalize the portal rows' municipality
      names, drop their name and code, inner merge with the IBGE table on
      state and normalized name, and lay the result out under the
      schema's fields. Each portal row gives one row per municipality it
      names, with that municipality's name and code; a portal row naming
      none is dropped. */
  function FillMunicipalCodes(frame: Frame, ms: seq<Ibge.Municipality>, schema: seq<string>,
                              nfd: string -> string, combining: char -> bool): (r: Result<Frame, Exception>)
    ensures r.Err? <==>
      || "municipality" !in frame.columns
      || !AllStr(Cells(frame, "municipality"))
      || "municipality_code" !in frame.columns
      || !AllStr(Names(ms))
      || "state_code" !in frame.columns
    ensures "municipality" !in frame.columns ==> r == Err(KeyError("municipality"))
    ensures "municipality" in frame.columns && !AllStr(Cells(frame, "municipality")) ==>
      r == Err(StrError(Cells(frame, "municipality")))
    ensures r.Ok? ==> r.value.columns == schema
    ensures r.Ok? ==> forall n :: 0 <= n < |r.value.rows| ==> FilledFromSome(r.value, n, frame, ms, nfd, combining)
    ensures r.Ok? ==> forall i, j :: 0 <= i < |frame.rows| && 0 <= j < |ms| && NameMatch(frame, i, ms[j], nfd, combining) ==>
      GivesFilled(r.value, frame, i, ms[j], nfd, combining)
  {
    if "municipality" !in frame.columns then Err(KeyError("municipality"))
    else
      match NormalizeCells(Cells(frame, "municipality"), nfd, combining)
      case Err(e) => Err(e)
      case Ok(norms) =>
        assert NormsOf(frame, norms, nfd, combining);
        var named := SetColumn(frame, "normalized_name", norms);
        DropNamedFails(frame, norms);
        match Drop(named, ["municipality", "municipality_code"])
        case Err(e) => Err(e)
        case Ok(left) =>
          LeftOfHolds(frame, norms, left);
          FillFromLeft(frame, ms, schema, nfd, combining, norms, left)
  }

  /** Dropping name and code fails only for want of a code column. */
  lemma DropNamedFails(frame: Frame, norms: seq<Val>)
    requires "municipality" in frame.columns && |norms| == |frame.rows|
    ensures Drop(SetColumn(frame, "normalized_name", norms), ["municipality", "municipality_code"]).Err? <==>
      "municipality_code" !in frame.columns
  {
    var named := SetColumn(frame, "normalized_name", norms);
    assert "municipality" in named.columns;
    assert "municipality_code" in named.columns <==> "municipality_code" in frame.columns;
  }

  /** `fill_municipal_codes` from the merge on: build the IBGE table,
      inner merge it with the left side and lay the result out. */
  function FillFromLeft(frame: Frame, ms: seq<Ibge.Municipality>, schema: seq<string>,
                        nfd: string -> string, combining: char -> bool, norms: seq<Val>, left: Frame): (r: Result<Frame, Exception>)
    requires NormsOf(frame, norms, nfd, combining)
    requires LeftOf(frame, norms, left)
    ensures r.Err? <==> !AllStr(Names(ms)) || "state_code" !in frame.columns
    ensures r.Ok? ==> r.value.columns == schema
    ensures r.Ok? ==> forall n :: 0 <= n < |r.value.rows| ==> FilledFromSome(r.value, n, frame, ms, nfd, combining)
    ensures r.Ok? ==> forall i, j :: 0 <= i < |frame.rows| && 0 <= j < |ms| && NameMatch(frame, i, ms[j], nfd, combining) ==>
      GivesFilled(r.value, frame, i, ms[j], nfd, combining)
  {
    match CodesFrame(ms, nfd, combining)
    case Err(e) => Err(e)
    case Ok(codes) =>
      CodesOfHolds(ms, nfd, combining);
      MergeSucceeds(frame, norms, left, codes);
      match Merge(left, codes, On, Inner)
      case Err(e) => Err(e)
      case Ok(merged) =>
        InnerMergedHolds(left, codes);
        var out := Reindex(merged, schema);
        FilledRows(frame, ms, schema, nfd, combining, norms, left, codes, merged, out);
        Ok(out)
  }

  /** The IBGE side of the merge: one row per municipality with its state,
      name, code and normalized name, all names being strings. */
  ghost predicate CodesOf(ms: seq<Ibge.Municipality>, nfd: string -> string, combining: char -> bool, codes: Frame)
  {
    && AllStr(Names(ms))
    && codes.columns == CodesColumns && |codes.rows| == |ms|
    && forall j :: 0 <= j < |ms| ==>
         && At(codes, j, "state_code") == ms[j].uf
         && At(codes, j, "municipality") == ms[j].name
         && At(codes, j, "municipality_code") == ms[j].code
         && At(codes, j, "normalized_name") == NormalizedCell(ms[j].name, nfd, combining)
  }

  /** A built IBGE table is `CodesOf`. */
  lemma CodesOfHolds(ms: seq<Ibge.Municipality>, nfd: string -> string, combining: char -> bool)
    requires CodesFrame(ms, nfd, combining).Ok?
    ensures CodesOf(ms, nfd, combining, CodesFrame(ms, nfd, combining).value)
  {
  }

  /** `merged` is the inner merge of `left` and `codes` on `On`. */
  ghost predicate InnerMerged(left: Frame, codes: Frame, merged: Frame)
  {
    && merged.columns == MergedColumns(left, codes, On)
    && (forall x :: x in merged.rows ==> exists i :: 0 <= i < |left.rows| && x in RowsFor(left, i, codes, On, Inner))
    && (forall i, j :: 0 <= i < |left.rows| && 0 <= j < |codes.rows| && KeyMatch(left, i, codes, j, On) ==>
          Joined(left, i, codes, j, On) in merged.rows)
  }

  /** A successful inner merge is `InnerMerged`. */
  lemma InnerMergedHolds(left: Frame, codes: Frame)
    requires Merge(left, codes, On, Inner).Ok?
    ensures InnerMerged(left, codes, Merge(left, codes, On, Inner).value)
  {
  }

  /** The merge fails only for want of a `state_code` column. */
  lemma MergeSucceeds(frame: Frame, norms: seq<Val>, left: Frame, codes: Frame)
    requires LeftOf(frame, norms, left)
    requires codes.columns == CodesColumns
    ensures Merge(left, codes, On, Inner).Ok? <==> "state_code" in frame.columns
  {
    assert "normalized_name" in left.columns;
    assert "state_code" in left.columns <==> "state_code" in frame.columns;
    assert !exists c :: c in codes.columns && c !in On && c in left.columns;
  }

  /** The two row properties of `FillMunicipalCodes`. */
  lemma FilledRows(frame: Frame, ms: seq<Ibge.Municipality>, schema: seq<string>, nfd: string -> string, combining: char -> bool,
                   norms: seq<Val>, left: Frame, codes: Frame, merged: Frame, out: Frame)
    requires NormsOf(frame, norms, nfd, combining)
    requires LeftOf(frame, norms, left)
    requires CodesOf(ms, nfd, combining, codes)
    requires InnerMerged(left, codes, merged)
    requires out == Reindex(merged, schema)
    ensures forall n :: 0 <= n < |out.rows| ==> FilledFromSome(out, n, frame, ms, nfd, combining)
    ensures forall i, j :: 0 <= i < |frame.rows| && 0 <= j < |ms| && NameMatch(frame, i, ms[j], nfd, combining) ==>
      GivesFilled(out, frame, i, ms[j], nfd, combining)
  {
    forall n | 0 <= n < |out.rows|
      ensures FilledFromSome(out, n, frame, ms, nfd, combining)
    {
      FilledRowFrom(frame, ms, schema, nfd, combining, norms, left, codes, merged, out, n);
    }
    forall i, j | 0 <= i < |frame.rows| && 0 <= j < |ms| && NameMatch(frame, i, ms[j], nfd, combining)
      ensures GivesFilled(out, frame, i, ms[j], nfd, combining)
    {
      MatchFilled(frame, ms, schema, nfd, combining, norms, left, codes, merged, out, i, j);
    }
  }

  /** The merge's key test is `NameMatch`. */
  lemma KeyIsNameMatch(frame: Frame, ms: seq<Ibge.Municipality>, nfd: string -> string, combining: char -> bool,
                       norms: seq<Val>, left: Frame, codes: Frame, i: int, j: int)
    requires NormsOf(frame, norms, nfd, combining)
    requires LeftOf(frame, norms, left)
    requires CodesOf(ms, nfd, combining, codes)
    requires 0 <= i < |frame.rows| && 0 <= j < |ms|
    ensures KeyMatch(left, i, codes, j, On) <==> NameMatch(frame, i, ms[j], nfd, combining)
  {
    assert ms[j].name in Names(ms);
    assert At(left, i, "state_code") == At(frame, i, "state_code");
    assert At(codes, j, "state_code") == ms[j].uf;
    assert At(left, i, "normalized_name") == norms[i];
    assert At(codes, j, "normalized_name") == NormalizedCell(ms[j].name, nfd, combining);
    assert KeyMatch(left, i, codes, j, On) <==>
      At(left, i, "state_code") == At(codes, j, "state_code") && At(left, i, "normalized_name") == At(codes, j, "normalized_name");
  }

  /** What `LeftOf` says about column `c` of row `i`. */
  ghost predicate LeftCell(frame: Frame, norms: seq<Val>, left: Frame, i: int, c: string)
    requires 0 <= i < |frame.rows| && 0 <= i < |norms|
  {
    && i < |left.rows|
    && (c in left.columns <==> (c in frame.columns || c == "normalized_name") && c != "municipality" && c != "municipality_code")
    && (c == "normalized_name" ==> At(left, i, c) == norms[i])
    && (c != "normalized_name" && c != "municipality" && c != "municipality_code" ==> At(left, i, c) == At(frame, i, c))
  }

  /** `LeftOf` gives `LeftCell` for every row and column. */
  lemma LeftCellHolds(frame: Frame, norms: seq<Val>, left: Frame, i: int, c: string)
    requires LeftOf(frame, norms, left) && 0 <= i < |frame.rows|
    ensures LeftCell(frame, norms, left, i, c)
  {
  }

  /** A cell of the merged row made by joining portal row `i` with
      municipality `j`. */
  lemma MergedCell(frame: Frame, m: Ibge.Municipality, nfd: string -> string, combining: char -> bool,
                   norms: seq<Val>, left: Frame, codes: Frame, merged: Frame, n: int, i: int, j: int, c: string)
    requires 0 <= i < |frame.rows| && 0 <= i < |norms|
    requires LeftCell(frame, norms, left, i, c)
    requires codes.columns == CodesColumns && 0 <= j < |codes.rows|
    requires At(codes, j, "municipality") == m.name && At(codes, j, "municipality_code") == m.code
    requires 0 <= n < |merged.rows|
    requires At(merged, n, c) ==
      if c in left.columns then At(left, i, c)
      else if c in codes.columns && c !in On then At(codes, j, c)
      else Null
    requires NameMatch(frame, i, m, nfd, combining)
    requires norms[i] == Str(Normalize(At(frame, i, "municipality").s, nfd, combining))
    ensures At(merged, n, c) == FilledCell(frame, i, m, c, nfd, combining)
  {
    if c == "normalized_name" {
      assert c in left.columns;
      assert At(merged, n, c) == norms[i];
      assert norms[i] == NormalizedCell(m.name, nfd, combining);
      assert FilledCell(frame, i, m, c, nfd, combining) == NormalizedCell(m.name, nfd, combining);
    } else if c == "municipality" {
      assert c !in left.columns && c in codes.columns && c !in On;
      assert At(merged, n, c) == m.name;
    } else if c == "municipality_code" {
      assert c !in left.columns && c in codes.columns && c !in On;
      assert At(merged, n, c) == m.code;
    } else if c in left.columns {
      assert At(merged, n, c) == At(frame, i, c);
      assert FilledCell(frame, i, m, c, nfd, combining) == At(frame, i, c);
    } else {
      assert c !in frame.columns;
      assert FilledCell(frame, i, m, c, nfd, combining) == Null;
    }
  }

  /** Output row `n` is made of a portal row and a municipality it names. */
  lemma FilledRowFrom(frame: Frame, ms: seq<Ibge.Municipality>, schema: seq<string>, nfd: string -> string, combining: char -> bool,
                      norms: seq<Val>, left: Frame, codes: Frame, merged: Frame, out: Frame, n: int)
    requires NormsOf(frame, norms, nfd, combining)
    requires LeftOf(frame, norms, left)
    requires CodesOf(ms, nfd, combining, codes)
    requires InnerMerged(left, codes, merged)
    requires out == Reindex(merged, schema)
    requires 0 <= n < |out.rows|
    ensures FilledFromSome(out, n, frame, ms, nfd, combining)
  {
    var x := merged.rows[n];
    assert x in merged.rows;
    var i :| 0 <= i < |left.rows| && x in RowsFor(left, i, codes, On, Inner);
    var j :| 0 <= j < |codes.rows| && KeyMatch(left, i, codes, j, On) && x == Joined(left, i, codes, j, On);
    KeyIsNameMatch(frame, ms, nfd, combining, norms, left, codes, i, j);
    forall c | c in out.columns
      ensures At(out, n, c) == FilledCell(frame, i, ms[j], c, nfd, combining)
    {
      LeftCellHolds(frame, norms, left, i, c);
      JoinedAt(merged, n, left, i, codes, j, On, c);
      MergedCell(frame, ms[j], nfd, combining, norms, left, codes, merged, n, i, j, c);
    }
    assert FilledRow(out, n, frame, i, ms[j], nfd, combining);
  }

  /** A portal row and a municipality it names give an output row. */
  lemma MatchFilled(frame: Frame, ms: seq<Ibge.Municipality>, schema: seq<string>, nfd: string -> string, combining: char -> bool,
                    norms: seq<Val>, left: Frame, codes: Frame, merged: Frame, out: Frame, i: int, j: int)
    requires NormsOf(frame, norms, nfd, combining)
    requires LeftOf(frame, norms, left)
    requires CodesOf(ms, nfd, combining, codes)
    requires InnerMerged(left, codes, merged)
    requires out == Reindex(merged, schema)
    requires 0 <= i < |frame.rows| && 0 <= j < |ms| && NameMatch(frame, i, ms[j], nfd, combining)
    ensures GivesFilled(out, frame, i, ms[j], nfd, combining)
  {
    KeyIsNameMatch(frame, ms, nfd, combining, norms, left, codes, i, j);
    var x := Joined(left, i, codes, j, On);
    assert x in merged.rows;
    var n :| 0 <= n < |merged.rows| && merged.rows[n] == x;
    forall c | c in out.columns
      ensures At(out, n, c) == FilledCell(frame, i, ms[j], c, nfd, combining)
    {
      LeftCellHolds(frame, norms, left, i, c);
      JoinedAt(merged, n, left, i, codes, j, On, c);
      MergedCell(frame, ms[j], nfd, combining, norms, left, codes, merged, n, i, j, c);
    }
    assert FilledRow(out, n, frame, i, ms[j], nfd, combining);
  }
}
