/** The municipality table built from the IBGE territorial division
    spreadsheet (tools/harvest/ibge/ibge_municipalities.py): the column
    clean-up and the merge with the table already published. */
module Ibge {
  import opened Wrappers
  import opened Values
  import opened Seqs
  import opened Frames

  /** One row of the municipality table. */
  datatype Municipality = Municipality(code: Val, name: Val, uf: Val)

  /** The spreadsheet's column names and the table's. */
  const IbgeNames: map<string, string> :=
    map["Código Município Completo" := "code", "Nome_Município" := "name", "Sigla_UF" := "uf"]

  /** The columns of the municipality table, in order. */
  const TableColumns: seq<string> := ["code", "name", "uf"]

  /** The sort key `code`. */
  function CodeKey(m: Municipality): seq<Val>
  {
    [m.code]
  }

  /** The code alone, the key of `isin`. */
  function CodeOf(m: Municipality): Val
  {
    m.code
  }

  /** The municipalities of a frame with the table's columns. */
  function ReadMunicipalities(f: Frame): (ms: seq<Municipality>)
    ensures |ms| == |f.rows|
    ensures forall i :: 0 <= i < |f.rows| ==> ms[i] == Municipality(At(f, i, "code"), At(f, i, "name"), At(f, i, "uf"))
  {
    seq(|f.rows|, i requires 0 <= i < |f.rows| => Municipality(At(f, i, "code"), At(f, i, "name"), At(f, i, "uf")))
  }

  /** `remove_and_rename_columns`: rename the spreadsheet's columns, keep
      `code`, `name` and `uf` (a `KeyError` when one is missing), sort by
      `code`. The result holds one municipality per spreadsheet row. */
  function RemoveAndRenameColumns(raw: Frame): (r: Result<seq<Municipality>, Exception>)
    ensures r.Ok? ==> Rename(raw, IbgeNames).Ok?
    ensures r.Ok? ==> multiset(r.value) == multiset(ReadMunicipalities(Rename(raw, IbgeNames).value))
    ensures r.Ok? ==> |r.value| == |raw.rows| && Sorted(r.value, CodeKey)
    ensures Rename(raw, IbgeNames).Ok? ==>
      (r.Ok? <==> forall c :: c in TableColumns ==> c in Rename(raw, IbgeNames).value.columns)
  {
    match Rename(raw, IbgeNames)
    case Err(e) => Err(e)
    case Ok(renamed) =>
      match Select(renamed, TableColumns)
      case Err(e) => Err(e)
      case Ok(selected) =>
        var ms := ReadMunicipalities(selected);
        assert ms == ReadMunicipalities(renamed) by {
          forall i | 0 <= i < |ms|
            ensures ms[i] == ReadMunicipalities(renamed)[i]
          {
            assert "code" in TableColumns && "name" in TableColumns && "uf" in TableColumns;
          }
        }
        Ok(SortBy(ms, CodeKey))
  }

  /** A spreadsheet with the three IBGE columns and none of the table's
      names already in use is cleaned up without error, and each code comes
      from the `Código Município Completo` column. */
  lemma SpreadsheetColumnsSuffice(raw: Frame)
    requires NoDup(raw.columns)
    requires "Código Município Completo" in raw.columns && "Nome_Município" in raw.columns && "Sigla_UF" in raw.columns
    requires "code" !in raw.columns && "name" !in raw.columns && "uf" !in raw.columns
    ensures RemoveAndRenameColumns(raw).Ok?
    ensures forall m :: m in RemoveAndRenameColumns(raw).value ==>
      exists i :: 0 <= i < |raw.rows| && m.code == At(raw, i, "Código Município Completo")
  {
    IbgeRenamed(raw);
    var renamed := Rename(raw, IbgeNames).value;
    var read := ReadMunicipalities(renamed);
    var r := RemoveAndRenameColumns(raw).value;
    assert multiset(r) == multiset(read);
    forall m | m in r
      ensures exists i :: 0 <= i < |raw.rows| && m.code == At(raw, i, "Código Município Completo")
    {
      assert m in multiset(read);
      ReadCode(renamed, m);
      var i :| 0 <= i < |renamed.rows| && m.code == At(renamed, i, "code");
      assert i < |raw.rows|;
    }
  }

  /** Each municipality read from a frame has the code of one of its rows. */
  lemma ReadCode(f: Frame, m: Municipality)
    requires m in ReadMunicipalities(f)
    ensures exists i :: 0 <= i < |f.rows| && m.code == At(f, i, "code")
  {
    var i :| 0 <= i < |ReadMunicipalities(f)| && ReadMunicipalities(f)[i] == m;
  }

  /** Renaming such a spreadsheet succeeds, yields the table's three
      columns, and moves the codes to `code` cell by cell. */
  lemma IbgeRenamed(raw: Frame)
    requires NoDup(raw.columns)
    requires "Código Município Completo" in raw.columns && "Nome_Município" in raw.columns && "Sigla_UF" in raw.columns
    requires "code" !in raw.columns && "name" !in raw.columns && "uf" !in raw.columns
    ensures Rename(raw, IbgeNames).Ok?
    ensures forall c :: c in TableColumns ==> c in Rename(raw, IbgeNames).value.columns
    ensures forall i :: 0 <= i < |raw.rows| ==>
      At(Rename(raw, IbgeNames).value, i, "code") == At(raw, i, "Código Município Completo")
  {
    var cols := RenamedColumns(raw.columns, IbgeNames);
    assert NoDup(cols) by {
      forall i, j | 0 <= i < j < |cols|
        ensures cols[i] != cols[j]
      {
        assert raw.columns[i] != raw.columns[j];
      }
    }
    var renamed := Rename(raw, IbgeNames).value;
    var a := IndexOf(raw.columns, "Código Município Completo");
    var b := IndexOf(raw.columns, "Nome_Município");
    var c := IndexOf(raw.columns, "Sigla_UF");
    assert cols[a] == "code" && cols[b] == "name" && cols[c] == "uf";
    forall i | 0 <= i < |raw.rows|
      ensures At(renamed, i, "code") == At(raw, i, "Código Município Completo")
    {
      assert At(renamed, i, Renamed(IbgeNames, raw.columns[a])) == At(raw, i, raw.columns[a]);
    }
  }

  /** `merge_existing`: without a published table, the new one as is.
      Otherwise the published rows as read, followed by the new rows whose
      code is not among them. The `update` of changed rows acts on a frame
      that is thrown away, so it changes nothing; it can still fail, with a
      `ValueError`, when a code repeats in the new table. */
  function MergeExisting(table: seq<Municipality>, existing: Option<seq<Municipality>>): (r: Result<seq<Municipality>, Exception>)
    ensures existing.None? ==> r == Ok(table)
    ensures existing.Some? ==> (r.Err? <==> !KeysUnique(table, CodeOf))
    ensures r.Err? ==> r.error.ValueError?
    ensures existing.Some? && r.Ok? ==> |existing.value| <= |r.value| && r.value[..|existing.value|] == existing.value
    ensures existing.Some? && r.Ok? ==> forall x :: x in r.value[|existing.value|..] <==>
      (x in table && x.code !in Keys(existing.value, CodeOf))
    ensures existing.Some? && r.Ok? ==> Keys(r.value, CodeOf) == Keys(existing.value, CodeOf) + Keys(table, CodeOf)
  {
    match existing
    case None => Ok(table)
    case Some(published) =>
      if !KeysUnique(table, CodeOf) then Err(ValueError("cannot reindex on an axis with duplicate labels"))
      else
        var oldCodes := Keys(published, CodeOf);
        var added := Filter(table, (m: Municipality) => m.code !in oldCodes);
        var r := published + added;
        assert r[..|published|] == published && r[|published|..] == added;
        KeysConcat(published, added, CodeOf);
        forall k | k in Keys(table, CodeOf)
          ensures k in Keys(r, CodeOf)
        {
          var m :| m in table && CodeOf(m) == k;
          if k !in oldCodes {
            assert m in added;
          }
        }
        Ok(r)
  }

  /** Merging the same new table into the merged one adds nothing: every
      new code is already there. */
  lemma MergeExistingIdempotent(table: seq<Municipality>, existing: Option<seq<Municipality>>)
    requires MergeExisting(table, existing).Ok?
    requires KeysUnique(table, CodeOf)
    ensures MergeExisting(table, Some(MergeExisting(table, existing).value)) == MergeExisting(table, existing)
  {
    var merged := MergeExisting(table, existing).value;
    var again := MergeExisting(table, Some(merged));
    assert again.Ok?;
    assert Keys(table, CodeOf) <= Keys(merged, CodeOf);
    var added := again.value[|merged|..];
    assert forall x :: x !in added;
    NoMemberEmpty(added);
    assert again.value[..|merged|] == merged;
    assert again.value == again.value[..|merged|] + added;
    assert again.value == merged;
    assert MergeExisting(table, existing) == Ok(merged);
  }

  /** A sequence without members is empty. */
  lemma NoMemberEmpty<T>(s: seq<T>)
    ensures (forall x :: x !in s) ==> s == []
  {
    if |s| > 0 {
      assert s[0] in s;
    }
  }
}
