/** `/scrape` after the browser has asked for the CSV export: spotting the
    downloaded file by comparing directory listings, and turning the CSV
    rows into trend records. */
module Scrape {
  import opened Strings
  import opened Js

  /** The names of the current listing that were not there before and end
      in `.csv`, in listing order. */
  function NewCsvFiles(current: seq<string>, before: set<string>): (r: seq<string>)
    ensures forall f :: f in r <==> f in current && f !in before && EndsWith(f, ".csv")
    ensures |r| <= |current|
  {
    if current == [] then []
    else
      var rest := NewCsvFiles(current[1..], before);
      assert forall f :: f in current <==> f == current[0] || f in current[1..];
      if current[0] !in before && EndsWith(current[0], ".csv") then [current[0]] + rest else rest
  }

  /** The file the polling loop settles on, given the listings it reads
      before the deadline: the first new CSV of the first listing that has
      one, or none. */
  function FirstDownload(listings: seq<seq<string>>, before: set<string>): Option<string> {
    if listings == [] then None
    else
      var found := NewCsvFiles(listings[0], before);
      if |found| > 0 then Some(found[0]) else FirstDownload(listings[1..], before)
  }

  /** A file is reported only if some listing shows it, it was not there
      before and it ends in `.csv`; nothing is reported only when no listing
      shows such a file. */
  lemma {:induction false} FirstDownloadSound(listings: seq<seq<string>>, before: set<string>)
    ensures FirstDownload(listings, before).Some? ==>
      var f := FirstDownload(listings, before).value;
      && f !in before && EndsWith(f, ".csv")
      && exists k :: 0 <= k < |listings| && f in listings[k]
    ensures FirstDownload(listings, before).None? <==>
      forall k :: 0 <= k < |listings| ==> NewCsvFiles(listings[k], before) == []
  {
    if listings != [] {
      FirstDownloadSound(listings[1..], before);
      var found := NewCsvFiles(listings[0], before);
      if |found| > 0 {
        assert found[0] in found;
      } else {
        forall k | 0 <= k < |listings[1..]| ensures listings[1..][k] == listings[k + 1] {
        }
        if FirstDownload(listings, before).Some? {
          var f := FirstDownload(listings, before).value;
          var k :| 0 <= k < |listings[1..]| && f in listings[1..][k];
          assert f in listings[k + 1];
        }
      }
    }
  }

  /** The polling loop of `/scrape`: read the listing, stop at the first
      new CSV file, otherwise wait and try again until the deadline. */
  method PollForDownload(listings: seq<seq<string>>, before: set<string>) returns (downloaded: Option<string>)
    ensures downloaded == FirstDownload(listings, before)
  {
    downloaded := None;
    var i := 0;
    while i < |listings|
      invariant 0 <= i <= |listings|
      invariant FirstDownload(listings, before) == FirstDownload(listings[i..], before)
    {
      var newFiles := NewCsvFiles(listings[i], before);
      assert listings[i..][1..] == listings[i + 1..];
      if |newFiles| > 0 {
        downloaded := Some(newFiles[0]);
        return;
      }
      i := i + 1;
    }
  }

  /** One parsed CSV row: column header to cell text. */
  type Row = map<string, string>

  /** `item["…"]`: the cell, or `undefined` when the column is missing. */
  function Cell(row: Row, column: string): Option<string> {
    if column in row then Some(row[column]) else None
  }

  /** The record each row becomes. */
  datatype Trend = Trend(
    trend: Option<string>,
    volume: Option<string>,
    breakdown: Option<string>,
    started: Option<string>,
    ended: Option<string>)

  const Columns: seq<string> := ["Trends", "Search volume", "Trend breakdown", "Started", "Ended"]

  /** The `.map` callback applied to each parsed row of the export. */
  function ToTrend(row: Row): Trend {
    Trend(Cell(row, "Trends"), Cell(row, "Search volume"), Cell(row, "Trend breakdown"),
          Cell(row, "Started"), Cell(row, "Ended"))
  }

  /** The whole `.map`: one record per row, in row order. */
  function ToTrends(rows: seq<Row>): (r: seq<Trend>)
    ensures |r| == |rows|
    ensures forall i :: 0 <= i < |rows| ==> r[i] == ToTrend(rows[i])
  {
    if rows == [] then [] else [ToTrend(rows[0])] + ToTrends(rows[1..])
  }

  /** A row holding exactly the five exported columns. */
  function TrendRow(trend: string, volume: string, breakdown: string, started: string, ended: string): Row {
    map["Trends" := trend, "Search volume" := volume, "Trend breakdown" := breakdown,
        "Started" := started, "Ended" := ended]
  }

  /** Each column lands in its own field. */
  lemma TrendRowFields(trend: string, volume: string, breakdown: string, started: string, ended: string)
    ensures ToTrend(TrendRow(trend, volume, breakdown, started, ended))
            == Trend(Some(trend), Some(volume), Some(breakdown), Some(started), Some(ended))
  {
  }

  /** Only the five columns matter: other columns of the export are
      dropped, and a missing column leaves its field undefined. */
  lemma ToTrendColumns(row: Row, other: Row)
    requires forall c :: c in Columns ==> (c in row <==> c in other) && (c in row ==> row[c] == other[c])
    ensures ToTrend(row) == ToTrend(other)
    ensures "Trends" !in row ==> ToTrend(row).trend.None?
    ensures "Search volume" !in row ==> ToTrend(row).volume.None?
    ensures "Trend breakdown" !in row ==> ToTrend(row).breakdown.None?
    ensures "Started" !in row ==> ToTrend(row).started.None?
    ensures "Ended" !in row ==> ToTrend(row).ended.None?
  {
    assert "Trends" in Columns && "Search volume" in Columns && "Trend breakdown" in Columns;
    assert "Started" in Columns && "Ended" in Columns;
  }
}
