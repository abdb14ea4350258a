/**
 * Normalisation of the Integbio database catalogue
 * (`src/bioregistry/external/integbio.py`): each CSV row becomes a record of
 * at most six keys, and the catalogue becomes a dictionary keyed by
 * "Database ID".
 *
 * A row is a map from column name to cell. A column the row does not have
 * is a key the map lacks; a cell pandas reads as NaN is `None`.
 */
module Integbio {
  import opened Wrappers

  type Row = map<string, Option<string>>

  /** A `row[column]` lookup on a column the row does not have raises KeyError. */
  datatype IntegbioError = MissingColumn(column: string)

  const FairsharingPrefix: string := "https://fairsharing.org/"

  /** The columns read with `row[...]`, in the order they are read. */
  const IdColumn: string := "Database ID"
  const NameColumn: string := "Database name"
  const UrlColumn: string := "URL"

  predicate HasRequiredColumns(row: Row)
  {
    IdColumn in row && NameColumn in row && UrlColumn in row
  }

  /** The six keys a processed record may carry. */
  const OutputKeys: set<string> := {"prefix", "name", "altname", "homepage", "description", "fairsharing"}

  /**
   * `row.get(column)`: the cell, or `None` (which is not `notna`) when the
   * column is absent. After `.get`, an absent column and a NaN cell look the
   * same; a value is seen exactly when the column is present with one.
   */
  function Get(row: Row, column: string): (r: Option<string>)
    ensures r.Some? <==> column in row && row[column].Some?
    ensures r.Some? ==> r.value == row[column].value
  {
    if column in row then row[column] else None
  }

  /** `removeprefix(s, prefix)`: `s` without a leading `prefix`, or `s` itself. */
  function RemovePrefix(s: string, prefix: string): (r: string)
    ensures prefix <= s ==> prefix + r == s
    ensures !(prefix <= s) ==> r == s
  {
    if prefix <= s then s[|prefix|..] else s
  }

  /**
   * Lines 34-36: a link that is present and non-empty loses a leading
   * `https://fairsharing.org/`; a missing or empty link is kept as it is.
   */
  function FairsharingValue(link: Option<string>): (r: Option<string>)
    ensures r.None? <==> link.None?
    ensures link.Some? && link.value != "" && FairsharingPrefix <= link.value ==>
              FairsharingPrefix + r.value == link.value
    ensures link.Some? && !(FairsharingPrefix <= link.value) ==> r == link
    ensures link == Some("") ==> r == Some("")
  {
    match link
    case Some(s) => if s != "" then Some(RemovePrefix(s, FairsharingPrefix)) else link
    case None => None
  }

  /** `out` holds `key` exactly when `v` is not missing, and then holds `v`'s string. */
  predicate Carries(out: map<string, string>, key: string, v: Option<string>)
  {
    && (key in out <==> v.Some?)
    && (v.Some? ==> out[key] == v.value)
  }

  /** No two entries share a key, as in a dict literal with distinct keys. */
  predicate DistinctKeys(entries: seq<(string, Option<string>)>)
  {
    forall i, j :: 0 <= i < j < |entries| ==> entries[i].0 != entries[j].0
  }

  /** Line 45: `{k: v for k, v in rv.items() if pd.notna(v)}`. */
  function DropMissing(entries: seq<(string, Option<string>)>): map<string, string>
  {
    if entries == [] then map[]
    else
      var m := DropMissing(entries[..|entries| - 1]);
      var last := entries[|entries| - 1];
      if last.1.Some? then m[last.0 := last.1.value] else m
  }

  /** With distinct keys, each key is kept exactly when its value is not NaN, and keeps that value. */
  lemma {:induction false} DropMissingKeeps(entries: seq<(string, Option<string>)>)
    requires DistinctKeys(entries)
    ensures forall k :: k in DropMissing(entries) ==> exists i :: 0 <= i < |entries| && entries[i].0 == k
    ensures forall i :: 0 <= i < |entries| ==> Carries(DropMissing(entries), entries[i].0, entries[i].1)
    decreases |entries|
  {
    if entries != [] {
      var front, last := entries[..|entries| - 1], entries[|entries| - 1];
      assert forall i :: 0 <= i < |front| ==> front[i] == entries[i];
      DropMissingKeeps(front);
      assert forall i :: 0 <= i < |front| ==> front[i].0 != last.0;
    }
  }

  /**
   * `_process_row` (lines 33-45). The `[]` lookups of "Database ID",
   * "Database name" and "URL" raise KeyError, in that order, when the
   * column is absent; the other three columns are read with `.get`.
   */
  function ProcessRow(row: Row): (r: Result<map<string, string>, IntegbioError>)
    ensures r.Failure? <==> !HasRequiredColumns(row)
    ensures r.Failure? ==> r.error == MissingColumn(
              if IdColumn !in row then IdColumn
              else if NameColumn !in row then NameColumn
              else UrlColumn)
  {
    if IdColumn !in row then Failure(MissingColumn(IdColumn))
    else if NameColumn !in row then Failure(MissingColumn(NameColumn))
    else if UrlColumn !in row then Failure(MissingColumn(UrlColumn))
    else
      var fairsharing := FairsharingValue(Get(row, "Link to FAIRsharing"));
      var entries := [
        ("prefix", row[IdColumn]),
        ("name", row[NameColumn]),
        ("altname", Get(row, "Alternative name")),
        ("homepage", row[UrlColumn]),
        ("description", Get(row, "Database description")),
        ("fairsharing", fairsharing)
      ];
      Success(DropMissing(entries))
  }

  /**
   * Lines 38-44: each of the six keys is present exactly when its cell is
   * not NaN, and then holds that cell; `fairsharing` holds the link as
   * lines 34-36 leave it.
   */
  lemma ProcessRowCarries(row: Row)
    requires HasRequiredColumns(row)
    ensures ProcessRow(row).Success?
    ensures ProcessRow(row).value.Keys <= OutputKeys
    ensures var out := ProcessRow(row).value;
            && Carries(out, "prefix", row[IdColumn])
            && Carries(out, "name", row[NameColumn])
            && Carries(out, "altname", Get(row, "Alternative name"))
            && Carries(out, "homepage", row[UrlColumn])
            && Carries(out, "description", Get(row, "Database description"))
            && Carries(out, "fairsharing", FairsharingValue(Get(row, "Link to FAIRsharing")))
  {
    var entries := [
      ("prefix", row[IdColumn]),
      ("name", row[NameColumn]),
      ("altname", Get(row, "Alternative name")),
      ("homepage", row[UrlColumn]),
      ("description", Get(row, "Database description")),
      ("fairsharing", FairsharingValue(Get(row, "Link to FAIRsharing")))
    ];
    var out := DropMissing(entries);
    assert ProcessRow(row) == Success(out);
    DropMissingKeeps(entries);
    assert Carries(out, entries[0].0, entries[0].1);
    assert Carries(out, entries[1].0, entries[1].1);
    assert Carries(out, entries[2].0, entries[2].1);
    assert Carries(out, entries[3].0, entries[3].1);
    assert Carries(out, entries[4].0, entries[4].1);
    assert Carries(out, entries[5].0, entries[5].1);
  }

  /** A non-empty FAIRsharing link under `https://fairsharing.org/` is stored as the rest of the link. */
  lemma FairsharingPrefixStripped(row: Row, rest: string)
    requires HasRequiredColumns(row)
    requires Get(row, "Link to FAIRsharing") == Some(FairsharingPrefix + rest)
    ensures "fairsharing" in ProcessRow(row).value && ProcessRow(row).value["fairsharing"] == rest
  {
    ProcessRowCarries(row);
    var link := FairsharingPrefix + rest;
    assert FairsharingPrefix <= link;
    assert link[|FairsharingPrefix|..] == rest;
  }

  /** An empty FAIRsharing link is kept as "", since only NaN cells are dropped. */
  lemma EmptyFairsharingKept(row: Row)
    requires HasRequiredColumns(row)
    requires Get(row, "Link to FAIRsharing") == Some("")
    ensures "fairsharing" in ProcessRow(row).value && ProcessRow(row).value["fairsharing"] == ""
  {
    ProcessRowCarries(row);
  }

  /** An absent optional column is omitted from the record rather than raising. */
  lemma OptionalColumnsMayBeAbsent(row: Row)
    requires HasRequiredColumns(row)
    ensures ProcessRow(row).Success?
    ensures "Alternative name" !in row ==> "altname" !in ProcessRow(row).value
    ensures "Database description" !in row ==> "description" !in ProcessRow(row).value
    ensures "Link to FAIRsharing" !in row ==> "fairsharing" !in ProcessRow(row).value
  {
    ProcessRowCarries(row);
  }

  // ---------------------------------------------------------------------------
  // `get_integbio`, line 26

  /** Row `i` is the last row whose "Database ID" is `id`. */
  predicate LastWithId(rows: seq<Row>, id: string, i: int)
  {
    && 0 <= i < |rows|
    && Get(rows[i], IdColumn) == Some(id)
    && forall j :: i < j < |rows| ==> Get(rows[j], IdColumn) != Some(id)
  }

  /** Row `i` fails with `e`, and the rows before it do not fail. */
  predicate FirstFailingRow(rows: seq<Row>, i: int, e: IntegbioError)
  {
    && 0 <= i < |rows|
    && ProcessRow(rows[i]) == Failure(e)
    && forall j :: 0 <= j < i ==> HasRequiredColumns(rows[j])
  }

  /** Every row has the three columns read with `[]`. */
  predicate RowsComplete(rows: seq<Row>)
  {
    forall i :: 0 <= i < |rows| ==> HasRequiredColumns(rows[i])
  }

  /** Every "Database ID" cell that is present is not NaN. */
  predicate IdsNotMissing(rows: seq<Row>)
  {
    forall i :: 0 <= i < |rows| && IdColumn in rows[i] ==> rows[i][IdColumn].Some?
  }

  /**
   * `{row["Database ID"]: _process_row(row) for row in rows}`: the first
   * failing row's exception, or the dictionary `CatalogueEntries` describes.
   */
  function GetIntegbio(rows: seq<Row>): (r: Result<map<string, map<string, string>>, IntegbioError>)
    requires IdsNotMissing(rows)
    ensures r.Success? <==> RowsComplete(rows)
    ensures r.Failure? ==> exists i :: FirstFailingRow(rows, i, r.error)
  {
    if rows == [] then Success(map[])
    else
      var front, last := rows[..|rows| - 1], rows[|rows| - 1];
      assert forall i :: 0 <= i < |front| ==> front[i] == rows[i];
      match GetIntegbio(front)
      case Failure(e) =>
        assert exists i :: FirstFailingRow(rows, i, e) && !HasRequiredColumns(rows[i]) by {
          var i :| FirstFailingRow(front, i, e);
          assert FirstFailingRow(rows, i, e);
        }
        Failure(e)
      case Success(m) =>
        match ProcessRow(last)
        case Failure(e) =>
          assert FirstFailingRow(rows, |rows| - 1, e);
          Failure(e)
        case Success(record) => Success(m[last[IdColumn].value := record])
  }

  /** The rows before the last keep both conditions. */
  lemma FrontComplete(rows: seq<Row>)
    requires IdsNotMissing(rows) && RowsComplete(rows) && rows != []
    ensures IdsNotMissing(rows[..|rows| - 1]) && RowsComplete(rows[..|rows| - 1])
  {
  }

  /** The last row's record is stored under its identifier over the earlier rows' dictionary. */
  lemma CatalogueStep(rows: seq<Row>)
    requires IdsNotMissing(rows) && RowsComplete(rows) && rows != [] && RowsComplete(rows[..|rows| - 1])
    ensures GetIntegbio(rows).Success? && GetIntegbio(rows[..|rows| - 1]).Success?
    ensures GetIntegbio(rows).value ==
            GetIntegbio(rows[..|rows| - 1]).value[rows[|rows| - 1][IdColumn].value := ProcessRow(rows[|rows| - 1]).value]
  {
  }

  /** When every row is complete, every row's identifier is a key of the dictionary. */
  lemma {:induction false} CatalogueHasEveryId(rows: seq<Row>)
    requires IdsNotMissing(rows) && RowsComplete(rows)
    ensures forall i :: 0 <= i < |rows| ==> rows[i][IdColumn].value in GetIntegbio(rows).value
    decreases |rows|
  {
    if rows != [] {
      var front := rows[..|rows| - 1];
      FrontComplete(rows);
      CatalogueStep(rows);
      CatalogueHasEveryId(front);
      assert forall i :: 0 <= i < |front| ==> front[i] == rows[i];
    }
  }

  /**
   * When every row is complete, each key maps to the record of the last row carrying it: a
   * later row with the same identifier replaces an earlier one.
   */
  lemma {:induction false} CatalogueLastWins(rows: seq<Row>)
    requires IdsNotMissing(rows) && RowsComplete(rows)
    ensures forall id :: id in GetIntegbio(rows).value ==>
              exists i :: LastWithId(rows, id, i) && GetIntegbio(rows).value[id] == ProcessRow(rows[i]).value
    decreases |rows|
  {
    if rows != [] {
      var front, last := rows[..|rows| - 1], rows[|rows| - 1];
      FrontComplete(rows);
      CatalogueStep(rows);
      CatalogueLastWins(front);
      var m := GetIntegbio(front).value;
      var id := last[IdColumn].value;
      var out := GetIntegbio(rows).value;
      assert LastWithId(rows, id, |rows| - 1);
      forall k | k in out && k != id
        ensures exists i :: LastWithId(rows, k, i) && out[k] == ProcessRow(rows[i]).value
      {
        var i :| LastWithId(front, k, i) && m[k] == ProcessRow(front[i]).value;
        assert front[i] == rows[i];
        assert LastWithId(rows, k, i);
      }
    }
  }
}
