/** The movie catalogue as the recommender holds it: named columns of equal
    length whose cells are text or missing, and the pass at start-up that
    replaces every missing cell of the selected columns by the empty string. */
module Catalog {

  /** One cell of a text column: a string, or missing (a null read from the CSV file). */
  datatype Cell = Missing | Text(value: string)

  /** The columns the recommender uses, in the order the fill loop visits them. */
  const SelectedFeatures: seq<string> := ["genres", "keywords", "tagline", "cast", "director", "title"]

  /** `fillna(v)` on one column: every missing cell becomes `v`; no cell is
      dropped, moved, or changed otherwise. */
  function FillNa(column: seq<Cell>, v: string): (r: seq<Cell>)
    ensures |r| == |column|
    ensures forall i :: 0 <= i < |r| ==> r[i].Text?
    ensures forall i :: 0 <= i < |r| && column[i].Text? ==> r[i] == column[i]
    ensures forall i :: 0 <= i < |r| && column[i].Missing? ==> r[i] == Text(v)
  {
    seq(|column|, i requires 0 <= i < |column| => if column[i].Missing? then Text(v) else column[i])
  }

  /** Filling a column that has already been filled changes nothing. */
  lemma FillNaIdempotent(column: seq<Cell>, v: string)
    ensures FillNa(FillNa(column, v), v) == FillNa(column, v)
  {
  }

  /** A column `name` of `rows` cells, every one of them text. */
  predicate TextColumn(columns: map<string, seq<Cell>>, name: string, rows: nat)
  {
    name in columns && |columns[name]| == rows &&
    forall i :: 0 <= i < rows ==> columns[name][i].Text?
  }

  /** Every selected feature is a text column with no missing cell. */
  predicate SelectedAreText(columns: map<string, seq<Cell>>, rows: nat)
  {
    forall j :: 0 <= j < |SelectedFeatures| ==> TextColumn(columns, SelectedFeatures[j], rows)
  }

  /** The text of row `i` of column `name`. */
  function At(columns: map<string, seq<Cell>>, name: string, rows: nat, i: nat): string
    requires TextColumn(columns, name, rows) && i < rows
  {
    columns[name][i].value
  }

  /** `movies_data['title'].tolist()`: the titles in row order. */
  function TitleList(columns: map<string, seq<Cell>>, rows: nat): (titles: seq<string>)
    requires SelectedAreText(columns, rows)
    ensures |titles| == rows
    ensures forall i :: 0 <= i < rows ==> Text(titles[i]) == columns["title"][i]
  {
    assert SelectedFeatures[5] == "title";
    seq(rows, i requires 0 <= i < rows => At(columns, "title", rows, i))
  }

  /** The loaded table. Columns are replaced whole; the number of rows never changes. */
  class MoviesData {
    var columns: map<string, seq<Cell>>
    const rows: nat

    /** Every column holds one cell per row. */
    ghost predicate Valid()
      reads this
    {
      forall name :: name in columns ==> |columns[name]| == rows
    }

    /** The table as read from the CSV file (the reading itself is not modelled). */
    constructor (columns: map<string, seq<Cell>>, rows: nat)
      requires forall name :: name in columns ==> |columns[name]| == rows
      ensures Valid()
      ensures this.columns == columns && this.rows == rows
    {
      this.columns := columns;
      this.rows := rows;
    }

    /** The fill loop: each selected column is replaced by its `fillna('')`;
        every other column, and every row, stays as it was. */
    method FillNulls()
      requires Valid()
      requires forall j :: 0 <= j < |SelectedFeatures| ==> SelectedFeatures[j] in columns
      modifies this
      ensures Valid()
      ensures SelectedAreText(columns, rows)
      ensures columns.Keys == old(columns).Keys
      ensures forall name :: name in columns ==>
                columns[name] == if name in SelectedFeatures then FillNa(old(columns)[name], "")
                                 else old(columns)[name]
    {
      var j := 0;
      while j < |SelectedFeatures|
        invariant 0 <= j <= |SelectedFeatures|
        invariant Valid()
        invariant columns.Keys == old(columns).Keys
        invariant forall name :: name in columns ==>
                    columns[name] == if name in SelectedFeatures[..j] then FillNa(old(columns)[name], "")
                                     else old(columns)[name]
      {
        var feature := SelectedFeatures[j];
        columns := columns[feature := FillNa(columns[feature], "")];
        j := j + 1;
      }
      assert SelectedFeatures[..j] == SelectedFeatures;
    }
  }
}
