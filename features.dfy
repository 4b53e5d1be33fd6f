/** The combined text of each movie: five of the selected columns joined by
    single spaces. The title column is selected and filled but not joined. */
module Features {
  import opened Catalog

  /** Reference definition: the fields in order, one space between neighbours. */
  function JoinSpaced(fields: seq<string>): string
  {
    if |fields| == 0 then ""
    else if |fields| == 1 then fields[0]
    else fields[0] + " " + JoinSpaced(fields[1..])
  }

  /** The summed length of the fields. */
  function TotalLength(fields: seq<string>): nat
  {
    if |fields| == 0 then 0 else |fields[0]| + TotalLength(fields[1..])
  }

  /** Joining n > 0 fields adds exactly n - 1 separator characters. */
  lemma {:induction false} JoinSpacedLength(fields: seq<string>)
    requires |fields| > 0
    ensures |JoinSpaced(fields)| == TotalLength(fields) + |fields| - 1
  {
    if |fields| > 1 {
      JoinSpacedLength(fields[1..]);
    }
  }

  /** The combined text of one row, in the order genres, keywords, tagline, cast, director. */
  function CombineRow(genres: string, keywords: string, tagline: string, cast: string, director: string): (r: string)
    ensures |r| == |genres| + |keywords| + |tagline| + |cast| + |director| + 4
  {
    genres + " " + keywords + " " + tagline + " " + cast + " " + director
  }

  /** The combined text is the five fields joined by single spaces, and
      nothing else: no title, no leading or trailing separator. */
  lemma CombineRowIsJoin(genres: string, keywords: string, tagline: string, cast: string, director: string)
    ensures CombineRow(genres, keywords, tagline, cast, director)
         == JoinSpaced([genres, keywords, tagline, cast, director])
  {
    var fields := [genres, keywords, tagline, cast, director];
    assert fields[1..] == [keywords, tagline, cast, director];
    assert fields[2..] == fields[1..][1..] == [tagline, cast, director];
    assert fields[3..] == fields[2..][1..] == [cast, director];
    assert fields[4..] == fields[3..][1..] == [director];
    assert JoinSpaced(fields[3..]) == cast + " " + director;
    assert JoinSpaced(fields[2..]) == tagline + " " + (cast + " " + director);
    assert JoinSpaced(fields[1..]) == keywords + " " + (tagline + " " + (cast + " " + director));
  }

  /** The combined text of every row of a filled table (one entry per row). */
  function CombinedFeatures(columns: map<string, seq<Cell>>, rows: nat): (r: seq<string>)
    requires SelectedAreText(columns, rows)
    ensures |r| == rows
    ensures forall i :: 0 <= i < rows ==>
              |r[i]| == |columns["genres"][i].value| + |columns["keywords"][i].value|
                      + |columns["tagline"][i].value| + |columns["cast"][i].value|
                      + |columns["director"][i].value| + 4
    ensures forall i :: 0 <= i < rows ==>
              r[i] == JoinSpaced([columns["genres"][i].value, columns["keywords"][i].value,
                                  columns["tagline"][i].value, columns["cast"][i].value,
                                  columns["director"][i].value])
  {
    assert TextColumn(columns, SelectedFeatures[0], rows) && TextColumn(columns, SelectedFeatures[1], rows);
    assert TextColumn(columns, SelectedFeatures[2], rows) && TextColumn(columns, SelectedFeatures[3], rows);
    assert TextColumn(columns, SelectedFeatures[4], rows);
    assert forall i :: 0 <= i < rows ==>
      CombineRow(At(columns, "genres", rows, i), At(columns, "keywords", rows, i),
                 At(columns, "tagline", rows, i), At(columns, "cast", rows, i),
                 At(columns, "director", rows, i))
      == JoinSpaced([At(columns, "genres", rows, i), At(columns, "keywords", rows, i),
                     At(columns, "tagline", rows, i), At(columns, "cast", rows, i),
                     At(columns, "director", rows, i)]) by {
      forall i | 0 <= i < rows {
        CombineRowIsJoin(At(columns, "genres", rows, i), At(columns, "keywords", rows, i),
                         At(columns, "tagline", rows, i), At(columns, "cast", rows, i),
                         At(columns, "director", rows, i));
      }
    }
    seq(rows, i requires 0 <= i < rows =>
      CombineRow(At(columns, "genres", rows, i), At(columns, "keywords", rows, i),
                 At(columns, "tagline", rows, i), At(columns, "cast", rows, i),
                 At(columns, "director", rows, i)))
  }

  /** Two tables that agree on genres, keywords, tagline, cast and director
      have the same combined text, whatever their titles or other columns. */
  lemma CombinedIgnoresTitle(c1: map<string, seq<Cell>>, c2: map<string, seq<Cell>>, rows: nat)
    requires SelectedAreText(c1, rows) && SelectedAreText(c2, rows)
    requires forall j :: 0 <= j < 5 ==> c1[SelectedFeatures[j]] == c2[SelectedFeatures[j]]
    ensures CombinedFeatures(c1, rows) == CombinedFeatures(c2, rows)
  {
    assert TextColumn(c1, SelectedFeatures[0], rows) && TextColumn(c1, SelectedFeatures[1], rows);
    assert TextColumn(c1, SelectedFeatures[2], rows) && TextColumn(c1, SelectedFeatures[3], rows);
    assert TextColumn(c1, SelectedFeatures[4], rows);
    assert c1["genres"] == c2["genres"] && c1["keywords"] == c2["keywords"];
    assert c1["tagline"] == c2["tagline"] && c1["cast"] == c2["cast"];
    assert c1["director"] == c2["director"];
  }

  /** A row whose five combined fields were all missing before the fill
      still takes part, with a combined text of four spaces. */
  lemma AllMissingRowIsFourSpaces(before: map<string, seq<Cell>>, after: map<string, seq<Cell>>, rows: nat, i: nat)
    requires SelectedAreText(after, rows)
    requires forall j :: 0 <= j < 5 ==>
               (SelectedFeatures[j] in before && after[SelectedFeatures[j]] == FillNa(before[SelectedFeatures[j]], ""))
    requires i < rows
    requires forall j :: 0 <= j < 5 ==>
               (i < |before[SelectedFeatures[j]]| && before[SelectedFeatures[j]][i] == Missing)
    ensures CombinedFeatures(after, rows)[i] == "    "
  {
    assert TextColumn(after, SelectedFeatures[0], rows) && TextColumn(after, SelectedFeatures[1], rows);
    assert TextColumn(after, SelectedFeatures[2], rows) && TextColumn(after, SelectedFeatures[3], rows);
    assert TextColumn(after, SelectedFeatures[4], rows);
    forall j | 0 <= j < 5
      ensures after[SelectedFeatures[j]][i] == Text("")
    {
      assert TextColumn(after, SelectedFeatures[j], rows);
    }
    assert after[SelectedFeatures[0]][i] == Text("") && after[SelectedFeatures[1]][i] == Text("");
    assert after[SelectedFeatures[2]][i] == Text("") && after[SelectedFeatures[3]][i] == Text("");
    assert after[SelectedFeatures[4]][i] == Text("");
  }
}
