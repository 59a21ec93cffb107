/** The merge of newly verified links into the reference table of websites,
    shared by the automatic (tools/validation/auto_verify_links.py) and the
    manual (tools/validation/manually_verify_links.py) verification scripts:
    update-as-insert on `(municipality_code, branch)`, then
    `drop_duplicates(subset='url', keep='last')`, then `sort_values`. */
module Reconcile {
  import opened Wrappers
  import opened Values
  import opened Seqs

  /** Which verification produced the records; it decides the timestamp
      column and the sort order. */
  datatype Method = Auto | Manual

  /** One row of the `brazilian-municipality-and-state-websites` table. */
  datatype WebsiteRow = WebsiteRow(
    stateCode: Val,
    municipalityCode: Val,
    municipality: Val,
    sphere: Val,
    branch: Val,
    url: Val,
    lastVerifiedManual: Val,
    lastVerifiedAuto: Val)

  /** A verified link, already renamed to the table's column names and with
      its branch mapped (`state_code`, `municipality_code`, `municipality`,
      `sphere`, `branch`, `url` and the method's timestamp). */
  datatype NewRecord = NewRecord(
    stateCode: string,
    municipalityCode: int,
    municipality: string,
    sphere: string,
    branch: string,
    url: string,
    verified: string)

  /** The timestamp column written by method `m`. */
  function Stamp(m: Method, row: WebsiteRow): Val
  {
    if m == Auto then row.lastVerifiedAuto else row.lastVerifiedManual
  }

  /** The timestamp column that method `m` leaves alone. */
  function OtherStamp(m: Method, row: WebsiteRow): Val
  {
    if m == Auto then row.lastVerifiedManual else row.lastVerifiedAuto
  }

  /** The `drop_duplicates` key. */
  function UrlOf(row: WebsiteRow): Val
  {
    row.url
  }

  /** `(table.municipality_code == code) & (table.branch == branch)`: pandas
      `==` never holds for a missing cell. */
  predicate Matches(row: WebsiteRow, r: NewRecord)
  {
    row.municipalityCode == Int(r.municipalityCode) && row.branch == Str(r.branch)
  }

  /** The position of `existing_data.iloc[0]`: the first matching row. */
  function FirstMatch(table: seq<WebsiteRow>, r: NewRecord): (i: Option<nat>)
    ensures i.Some? ==> i.value < |table| && Matches(table[i.value], r)
    ensures i.Some? ==> forall k :: 0 <= k < i.value ==> !Matches(table[k], r)
    ensures i.None? ==> forall k :: 0 <= k < |table| ==> !Matches(table[k], r)
  {
    if |table| == 0 then None
    else if Matches(table[0], r) then Some(0)
    else
      match FirstMatch(table[1..], r)
      case None => None
      case Some(k) => Some(k + 1)
  }

  /** A record appended as is: the columns it lacks are missing. */
  function FreshRow(m: Method, r: NewRecord): (row: WebsiteRow)
    ensures Matches(row, r)
  {
    WebsiteRow(
      Str(r.stateCode), Int(r.municipalityCode), Str(r.municipality),
      Str(r.sphere), Str(r.branch), Str(r.url),
      if m == Manual then Str(r.verified) else Null,
      if m == Auto then Str(r.verified) else Null)
  }

  /** A copy of `existing` with `sphere`, `branch`, `url` and the method's
      timestamp taken from the record. */
  function UpdatedCopy(m: Method, existing: WebsiteRow, r: NewRecord): WebsiteRow
  {
    var row := existing.(sphere := Str(r.sphere), branch := Str(r.branch), url := Str(r.url));
    if m == Auto then row.(lastVerifiedAuto := Str(r.verified))
    else row.(lastVerifiedManual := Str(r.verified))
  }

  /** `existing` and `row` agree on every column the update does not
      overwrite. */
  predicate CarriesOver(m: Method, existing: WebsiteRow, row: WebsiteRow)
  {
    && row.stateCode == existing.stateCode
    && row.municipalityCode == existing.municipalityCode
    && row.municipality == existing.municipality
    && OtherStamp(m, row) == OtherStamp(m, existing)
  }

  /** The row one loop iteration appends for record `r` to the current
      `table`. */
  function AppendedRow(m: Method, table: seq<WebsiteRow>, r: NewRecord): (row: WebsiteRow)
    ensures row.sphere == Str(r.sphere) && row.branch == Str(r.branch) && row.url == Str(r.url)
    ensures Stamp(m, row) == Str(r.verified)
    ensures FirstMatch(table, r).Some? ==> CarriesOver(m, table[FirstMatch(table, r).value], row)
    ensures FirstMatch(table, r).None? ==> row == FreshRow(m, r)
  {
    match FirstMatch(table, r)
    case Some(i) => UpdatedCopy(m, table[i], r)
    case None => FreshRow(m, r)
  }

  /** The update loop: records are processed in order, each looked up in the
      table as it stands after the earlier appends. Rows are only ever
      appended: the table read from disk is a prefix of the result, and the
      row appended for record `j` is computed from the table before it. */
  function ReconcileAll(m: Method, table: seq<WebsiteRow>, records: seq<NewRecord>): (t: seq<WebsiteRow>)
    ensures |t| == |table| + |records|
    ensures t[..|table|] == table
    ensures forall j :: 0 <= j < |records| ==>
      t[|table| + j] == AppendedRow(m, t[..|table| + j], records[j])
    decreases |records|
  {
    if |records| == 0 then table
    else
      var prev := ReconcileAll(m, table, records[..|records| - 1]);
      var t := prev + [AppendedRow(m, prev, records[|records| - 1])];
      AppendKeepsHistory(m, table, records, prev, t);
      t
  }

  /** One more iteration of the update loop keeps what the earlier ones
      established. */
  lemma AppendKeepsHistory(m: Method, table: seq<WebsiteRow>, records: seq<NewRecord>, prev: seq<WebsiteRow>, t: seq<WebsiteRow>)
    requires |records| > 0
    requires |prev| == |table| + |records| - 1 && prev[..|table|] == table
    requires forall j :: 0 <= j < |records| - 1 ==>
      prev[|table| + j] == AppendedRow(m, prev[..|table| + j], records[j])
    requires t == prev + [AppendedRow(m, prev, records[|records| - 1])]
    ensures |t| == |table| + |records| && t[..|table|] == table
    ensures forall j :: 0 <= j < |records| ==>
      t[|table| + j] == AppendedRow(m, t[..|table| + j], records[j])
  {
    forall j | 0 <= j < |records|
      ensures t[|table| + j] == AppendedRow(m, t[..|table| + j], records[j])
    {
      if j < |records| - 1 {
        assert t[..|table| + j] == prev[..|table| + j];
      } else {
        assert t[..|table| + j] == prev;
      }
    }
  }

  /** The sort order of the output: `(sphere, state_code, municipality,
      branch)` for automatic runs and `(state_code, municipality)` for manual
      ones. */
  function SortKey(m: Method): WebsiteRow -> seq<Val>
  {
    if m == Auto then
      (row: WebsiteRow) => [row.sphere, row.stateCode, row.municipality, row.branch]
    else
      (row: WebsiteRow) => [row.stateCode, row.municipality]
  }

  /** The merge step of `auto_verify` and `manual_verify`: reconcile, keep the
      last row per URL, sort. */
  function MergeVerified(m: Method, table: seq<WebsiteRow>, records: seq<NewRecord>): (out: seq<WebsiteRow>)
    ensures KeysUnique(out, UrlOf)
    ensures Sorted(out, SortKey(m))
    ensures multiset(out) == multiset(KeepLast(ReconcileAll(m, table, records), UrlOf))
  {
    var deduplicated := KeepLast(ReconcileAll(m, table, records), UrlOf);
    var out := SortBy(deduplicated, SortKey(m));
    KeysUniquePermutation(out, deduplicated, UrlOf);
    out
  }

  /** Every URL of the reconciled table survives, once, as its last row with
      that URL. */
  lemma {:induction false} LastRowPerUrl(m: Method, table: seq<WebsiteRow>, records: seq<NewRecord>, u: Val)
    requires u in Keys(ReconcileAll(m, table, records), UrlOf)
    ensures LastWith(ReconcileAll(m, table, records), UrlOf, u) in MergeVerified(m, table, records)
  {
    var t := ReconcileAll(m, table, records);
    var d := KeepLast(t, UrlOf);
    assert u in Keys(d, UrlOf);
    var x :| x in d && UrlOf(x) == u;
    assert x in multiset(d);
  }

  /** In the reconciled table, the row appended for the last record with a
      given URL is the last row with that URL. */
  lemma {:induction false} LastAppendedIsLast(m: Method, table: seq<WebsiteRow>, records: seq<NewRecord>, j: int)
    requires 0 <= j < |records|
    requires forall k :: j < k < |records| ==> records[k].url != records[j].url
    ensures var t := ReconcileAll(m, table, records);
      && Str(records[j].url) in Keys(t, UrlOf)
      && LastWith(t, UrlOf, Str(records[j].url)) == t[|table| + j]
  {
    var t := ReconcileAll(m, table, records);
    var n := |table| + j;
    var q := t[n + 1..];
    AppendedUrl(m, table, records, j);
    forall i | 0 <= i < |q|
      ensures UrlOf(q[i]) != UrlOf(t[n])
    {
      assert q[i] == t[n + 1 + i];
      AppendedUrl(m, table, records, j + 1 + i);
    }
    KeyNotInKeys(q, UrlOf, UrlOf(t[n]));
    SplitAround(t, n);
    LastWithSplit(t[..n], t[n], q, UrlOf);
  }

  /** The row appended for record `k` carries that record's URL. */
  lemma AppendedUrl(m: Method, table: seq<WebsiteRow>, records: seq<NewRecord>, k: int)
    requires 0 <= k < |records|
    ensures |table| + k < |ReconcileAll(m, table, records)|
    ensures UrlOf(ReconcileAll(m, table, records)[|table| + k]) == Str(records[k].url)
  {
  }

  /** Last writer wins: for the last record with a given URL, the output holds
      exactly one row with that URL, and it is the row appended for that
      record, so it carries that record's timestamp. */
  lemma {:induction false} NewestRecordWins(m: Method, table: seq<WebsiteRow>, records: seq<NewRecord>, j: int)
    requires 0 <= j < |records|
    requires forall k :: j < k < |records| ==> records[k].url != records[j].url
    ensures var t := ReconcileAll(m, table, records);
      var row := AppendedRow(m, t[..|table| + j], records[j]);
      && row in MergeVerified(m, table, records)
      && row.url == Str(records[j].url)
      && Stamp(m, row) == Str(records[j].verified)
      && forall y :: y in MergeVerified(m, table, records) && y.url == row.url ==> y == row
  {
    var t := ReconcileAll(m, table, records);
    var row := t[|table| + j];
    LastAppendedIsLast(m, table, records, j);
    LastRowPerUrl(m, table, records, UrlOf(row));
    var out := MergeVerified(m, table, records);
    forall y | y in out && y.url == row.url
      ensures y == row
    {
      UniqueKeyMember(out, UrlOf, y, row);
    }
  }

  /** Rows whose URL no record claims are not displaced: the last such row
      of the table read from disk is in the output. */
  lemma {:induction false} UnclaimedUrlKept(m: Method, table: seq<WebsiteRow>, records: seq<NewRecord>, u: Val)
    requires u in Keys(table, UrlOf)
    requires forall j :: 0 <= j < |records| ==> Str(records[j].url) != u
    ensures LastWith(table, UrlOf, u) in MergeVerified(m, table, records)
  {
    var t := ReconcileAll(m, table, records);
    var appended := t[|table|..];
    assert t == table + appended;
    forall i | 0 <= i < |appended|
      ensures UrlOf(appended[i]) != u
    {
      assert appended[i] == t[|table| + i] == AppendedRow(m, t[..|table| + i], records[i]);
    }
    LastWithPrefix(table, appended, UrlOf, u);
    LastRowPerUrl(m, table, records, u);
  }
}
