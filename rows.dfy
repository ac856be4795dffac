/** The per-row helpers of the audit script: `clean_value`, `row_to_dict` and
    `format_row_for_prompt`. */
module Rows {
  import opened Text
  import opened OrderedDict

  /** One cell as the CSV reader hands it over: missing (NaN or None) or text. */
  datatype Cell = Missing | Text(s: string)

  /** A dataset row: column names paired with their cells, in column order. */
  type Row = seq<(string, Cell)>

  /** The literal marker every missing cell becomes. */
  const NoneMarker: string := "None"

  function Columns(row: Row): seq<string>
  {
    seq(|row|, i requires 0 <= i < |row| => row[i].0)
  }

  /** Dropping the last cell drops the last column name. */
  lemma ColumnsInit(row: Row)
    requires |row| > 0
    ensures Columns(row[..|row| - 1]) == Columns(row)[..|row| - 1]
    ensures Columns(row)[|row| - 1] == row[|row| - 1].0
  {
  }

  /** `clean_value`: a missing cell becomes "None"; text loses its surrounding
      whitespace and nothing else. */
  function CleanValue(c: Cell): (r: string)
    ensures Trimmed(r)
    ensures c.Missing? ==> r == NoneMarker
    ensures c.Text? ==> r == Strip(c.s)
  {
    match c
    case Missing => assert Trimmed(NoneMarker); NoneMarker
    case Text(s) => StripSpec(s); Strip(s)
  }

  /** A cleaned value is "None" exactly when the cell is missing or its text
      is "None" up to surrounding whitespace. */
  lemma CleanValueIsNone(c: Cell)
    ensures CleanValue(c) == NoneMarker <==> c.Missing? || Strip(c.s) == NoneMarker
  {
  }

  /** `row_to_dict`: a dict built by one assignment per cell, in column order,
      each column mapped to its cleaned cell; a repeated column keeps its first
      position and its last value. */
  function RowToDict(row: Row): Dict {
    if |row| == 0 then []
    else
      var last := row[|row| - 1];
      Put(RowToDict(row[..|row| - 1]), last.0, CleanValue(last.1))
  }

  /** The cleaned dict has one key per distinct column name, and no other. */
  lemma {:induction false} RowToDictKeys(row: Row)
    ensures Valid(RowToDict(row))
    ensures forall k :: k in Keys(RowToDict(row)) <==> k in Columns(row)
  {
    if |row| > 0 {
      var init := row[..|row| - 1];
      var last := row[|row| - 1];
      RowToDictKeys(init);
      PutKeys(RowToDict(init), last.0, CleanValue(last.1));
      PutValid(RowToDict(init), last.0, CleanValue(last.1));
      assert Columns(row) == Columns(init) + [last.0];
    }
  }

  /** With distinct column names the dict is the row itself, each cell cleaned,
      in column order. */
  lemma RowToDictDistinct(row: Row)
    requires Distinct(Columns(row))
    ensures |RowToDict(row)| == |row|
    ensures forall i :: 0 <= i < |row| ==> RowToDict(row)[i] == (row[i].0, CleanValue(row[i].1))
  {
    RowToDictIsCleaned(row);
  }

  /** The row with every cell cleaned, column by column. */
  function CleanedCells(row: Row): Dict {
    seq(|row|, i requires 0 <= i < |row| => (row[i].0, CleanValue(row[i].1)))
  }

  lemma CleanedCellsInit(row: Row)
    requires |row| > 0
    ensures CleanedCells(row) == CleanedCells(row[..|row| - 1]) + [(row[|row| - 1].0, CleanValue(row[|row| - 1].1))]
  {
    var n := |row| - 1;
    assert forall i :: 0 <= i < n ==> row[..n][i] == row[i];
  }

  lemma {:induction false} RowToDictIsCleaned(row: Row)
    requires Distinct(Columns(row))
    ensures RowToDict(row) == CleanedCells(row)
  {
    if |row| > 0 {
      var n := |row| - 1;
      var init, last := row[..n], row[n];
      DistinctInit(Columns(row));
      ColumnsInit(row);
      RowToDictIsCleaned(init);
      RowToDictKeys(init);
      PutAbsent(RowToDict(init), last.0, CleanValue(last.1));
      CleanedCellsInit(row);
    }
  }

  /** For a row with distinct column names, looking a column up in the cleaned
      dict gives the cleaned cell of that column, and an absent column gives the default. */
  lemma RowToDictGet(row: Row, k: string, default: string)
    requires Distinct(Columns(row))
    ensures k !in Columns(row) ==> Get(RowToDict(row), k, default) == default
    ensures forall i :: 0 <= i < |row| && row[i].0 == k ==> Get(RowToDict(row), k, default) == CleanValue(row[i].1)
  {
    var d := RowToDict(row);
    RowToDictKeys(row);
    RowToDictDistinct(row);
    if k !in Columns(row) {
      GetAbsent(d, k, default);
    }
    forall i | 0 <= i < |row| && row[i].0 == k
      ensures Get(d, k, default) == CleanValue(row[i].1)
    {
      GetAt(d, i, default);
    }
  }

  /** The `f"{k}: {v}"` lines, in dict order. */
  function RowLines(d: Dict): seq<string>
  {
    seq(|d|, i requires 0 <= i < |d| => d[i].0 + ": " + d[i].1)
  }

  /** `format_row_for_prompt`: the "\n"-join of the `k: v` lines. */
  function FormatRowForPrompt(d: Dict): (r: string)
    ensures |d| == 0 ==> r == ""
    ensures |d| == 1 ==> r == d[0].0 + ": " + d[0].1
  {
    Join("\n", RowLines(d))
  }

  /** When every value is trimmed, as every cleaned value is, the block never
      ends in a newline. */
  lemma FormatHasNoTrailingNewline(d: Dict)
    requires forall i :: 0 <= i < |d| ==> Trimmed(d[i].1)
    ensures var r := FormatRowForPrompt(d); |r| == 0 || r[|r| - 1] != '\n'
  {
    if |d| > 0 {
      var lines := RowLines(d);
      var last := lines[|lines| - 1];
      JoinEndsWithLast("\n", lines);
      var r := FormatRowForPrompt(d);
      assert r[|r| - 1] == last[|last| - 1];
      var v := d[|d| - 1].1;
      assert last == d[|d| - 1].0 + ": " + v;
      if |v| == 0 {
        assert last[|last| - 1] == ' ';
      } else {
        assert last[|last| - 1] == v[|v| - 1];
      }
    }
  }

  lemma CleanedRowHasNoTrailingNewline(row: Row)
    ensures var r := FormatRowForPrompt(RowToDict(row)); |r| == 0 || r[|r| - 1] != '\n'
  {
    var d := RowToDict(row);
    forall i | 0 <= i < |d| ensures Trimmed(d[i].1) {
      CleanedValuesTrimmed(row, i);
    }
    FormatHasNoTrailingNewline(d);
  }

  /** Every value of a cleaned row is trimmed; with repeated columns the last
      assignment wins, and that too is a cleaned value. */
  lemma {:induction false} CleanedValuesTrimmed(row: Row, i: nat)
    requires i < |RowToDict(row)|
    ensures Trimmed(RowToDict(row)[i].1)
  {
    assert |row| > 0;
    var init := row[..|row| - 1];
    var last := row[|row| - 1];
    var d0 := RowToDict(init);
    PutValuesFrom(d0, last.0, CleanValue(last.1), i);
    if i < |d0| && RowToDict(row)[i] == d0[i] {
      CleanedValuesTrimmed(init, i);
    }
  }

  /** Each entry after `d[k] = v` is either the new pair or the entry that was there. */
  lemma {:induction false} PutValuesFrom(d: Dict, k: string, v: string, i: nat)
    requires i < |Put(d, k, v)|
    ensures Put(d, k, v)[i] == (k, v) || (i < |d| && Put(d, k, v)[i] == d[i])
  {
    if |d| > 0 && d[0].0 != k && i > 0 {
      PutValuesFrom(d[1..], k, v, i - 1);
    }
  }

  /** Splitting the block on newlines gives the lines back, as long as no column
      name or value contains a newline of its own. */
  lemma FormatRoundTrip(d: Dict)
    requires |d| > 0
    requires forall i :: 0 <= i < |d| ==> '\n' !in d[i].0 && '\n' !in d[i].1
    ensures Split('\n', FormatRowForPrompt(d)) == RowLines(d)
  {
    var lines := RowLines(d);
    forall i | 0 <= i < |lines| ensures '\n' !in lines[i] {
      assert lines[i] == d[i].0 + ": " + d[i].1;
    }
    SplitJoin('\n', lines);
  }
}
