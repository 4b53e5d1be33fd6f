/** The recommendation request: resolve the close match to a catalogue row,
    rank that row of the similarity matrix, and list the titles of the first
    thirty ranked movies. */
module Recommender {
  import opened Catalog
  import opened Ranking
  import opened Features

  datatype Option<T> = None | Some(value: T)

  /** Why a request produces no recommendation. */
  datatype Error =
    | NoCloseMatch   // the close-match list is empty, so taking its first element fails
    | TitleNotFound  // the chosen match is not a title of the catalogue

  datatype Result<T> = Ok(value: T) | Err(error: Error)

  /** The number of titles a request lists at most. */
  const MaxRecommendations: nat := 30

  function Min(a: nat, b: nat): nat
  {
    if a <= b then a else b
  }

  /** The position of the first row whose title is `t`, if any. */
  function FirstIndexOf(titles: seq<string>, t: string): (r: Option<nat>)
    ensures r.Some? <==> t in titles
    ensures r.Some? ==> r.value < |titles| && titles[r.value] == t
    ensures r.Some? ==> forall j :: 0 <= j < r.value ==> titles[j] != t
  {
    if |titles| == 0 then None
    else if titles[0] == t then Some(0)
    else match FirstIndexOf(titles[1..], t)
      case None => None
      case Some(k) => Some(k + 1)
  }

  /** Takes the first close match and finds the first row with that title. */
  function ResolveTitle(titles: seq<string>, matches: seq<string>): (r: Result<nat>)
    ensures |matches| == 0 ==> r == Err(NoCloseMatch)
    ensures |matches| > 0 && matches[0] !in titles ==> r == Err(TitleNotFound)
    ensures r.Ok? <==> |matches| > 0 && matches[0] in titles
    ensures r.Ok? ==> r.value < |titles| && titles[r.value] == matches[0]
    ensures r.Ok? ==> forall j :: 0 <= j < r.value ==> titles[j] != matches[0]
  {
    if |matches| == 0 then Err(NoCloseMatch)
    else match FirstIndexOf(titles, matches[0])
      case None => Err(TitleNotFound)
      case Some(i) => Ok(i)
  }

  /** When the matcher only ever offers catalogue titles, a non-empty match
      list always resolves. */
  lemma MatchFromCatalogResolves(titles: seq<string>, matches: seq<string>)
    requires |matches| > 0
    requires forall k :: 0 <= k < |matches| ==> matches[k] in titles
    ensures ResolveTitle(titles, matches).Ok?
  {
  }

  /** The append loop: walks the whole ranking and keeps the title of each of
      the first thirty entries. */
  method TopTitles(ranked: seq<Scored>, titles: seq<string>) returns (recommended: seq<string>)
    requires forall k :: 0 <= k < |ranked| ==> ranked[k].index < |titles|
    ensures |recommended| == Min(MaxRecommendations, |ranked|)
    ensures forall k :: 0 <= k < |recommended| ==> recommended[k] == titles[ranked[k].index]
  {
    recommended := [];
    for i := 0 to |ranked|
      invariant |recommended| == Min(MaxRecommendations, i)
      invariant forall k :: 0 <= k < |recommended| ==> recommended[k] == titles[ranked[k].index]
    {
      if i < MaxRecommendations {
        recommended := recommended + [titles[ranked[i].index]];
      }
    }
  }

  /** A square similarity matrix with one row and one column per catalogue row. */
  predicate Square(similarity: seq<seq<real>>, rows: nat)
  {
    |similarity| == rows && forall i :: 0 <= i < rows ==> |similarity[i]| == rows
  }

  /** Start-up: the table as read, every selected column filled, and the
      combined text of every row (vectorising it is not modelled). */
  method LoadCatalog(columns: map<string, seq<Cell>>, rows: nat) returns (data: MoviesData, combined: seq<string>)
    requires forall name :: name in columns ==> |columns[name]| == rows
    requires forall j :: 0 <= j < |SelectedFeatures| ==> SelectedFeatures[j] in columns
    ensures fresh(data) && data.Valid() && data.rows == rows
    ensures SelectedAreText(data.columns, rows)
    ensures data.columns.Keys == columns.Keys
    ensures forall name :: name in columns ==>
              data.columns[name] == if name in SelectedFeatures then FillNa(columns[name], "") else columns[name]
    ensures combined == CombinedFeatures(data.columns, rows)
  {
    data := new MoviesData(columns, rows);
    data.FillNulls();
    combined := CombinedFeatures(data.columns, rows);
  }

  /** One POST request. `matches` is what the fuzzy matcher returned for the
      typed name; `similarity` is the matrix computed at start-up. */
  method Recommend(data: MoviesData, similarity: seq<seq<real>>, matches: seq<string>)
    returns (r: Result<seq<string>>)
    requires SelectedAreText(data.columns, data.rows)
    requires Square(similarity, data.rows)
    ensures |matches| == 0 ==> r == Err(NoCloseMatch)
    ensures |matches| > 0 && matches[0] !in TitleList(data.columns, data.rows) ==> r == Err(TitleNotFound)
    ensures r.Ok? <==> |matches| > 0 && matches[0] in TitleList(data.columns, data.rows)
    ensures r.Ok? ==>
              var titles := TitleList(data.columns, data.rows);
              var m := FirstIndexOf(titles, matches[0]).value;
              var ranked := RankByScore(similarity[m]);
              |r.value| == Min(MaxRecommendations, data.rows) &&
              forall k :: 0 <= k < |r.value| ==> r.value[k] == titles[ranked[k].index]
  {
    var titles := TitleList(data.columns, data.rows);
    var resolved := ResolveTitle(titles, matches);
    if resolved.Err? {
      return Err(resolved.error);
    }
    var m := resolved.value;
    var ranked := RankByScore(similarity[m]);
    var recommended := TopTitles(ranked, titles);
    r := Ok(recommended);
  }

  /** The first recommendation is the title of the first row that reaches the
      highest score in the matched row; when the matched movie scores highest
      against itself, it comes first exactly when no lower row ties it. */
  lemma FirstRecommendation(row: seq<real>, titles: seq<string>, m: nat, recommended: seq<string>)
    requires |titles| == |row| && m < |row|
    requires |recommended| == Min(MaxRecommendations, |row|)
    requires forall k :: 0 <= k < |recommended| ==> recommended[k] == titles[RankByScore(row)[k].index]
    ensures |recommended| > 0
    ensures forall i :: 0 <= i < |row| ==> row[i] <= row[RankByScore(row)[0].index]
    ensures forall i :: 0 <= i < RankByScore(row)[0].index ==> row[i] < row[RankByScore(row)[0].index]
    ensures recommended[0] == titles[RankByScore(row)[0].index]
    ensures (forall i :: 0 <= i < |row| ==> row[i] <= row[m]) ==>
              (RankByScore(row)[0].index == m <==> forall i :: 0 <= i < m ==> row[i] < row[m])
  {
    RankingProperties(row);
    TopIsFirstMaximum(row);
    if forall i :: 0 <= i < |row| ==> row[i] <= row[m] {
      SelfRankedFirst(row, m);
    }
  }
}
