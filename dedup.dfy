/** `df.drop_duplicates(subset=['url'], keep='first')`: one row per distinct
    url value, the first one met, in the original order. A missing url
    (`None`, NaN in the frame) is one value like any other: pandas treats
    all NaN urls as duplicates of each other. */
module Dedup {
  import opened Wrappers
  import opened Records

  /** The url values present in `rows`. */
  function Urls(rows: seq<Row>): set<Option<string>> {
    if rows == [] then {} else Urls(rows[..|rows| - 1]) + {rows[|rows| - 1].url}
  }

  lemma {:induction false} UrlsMembers(rows: seq<Row>)
    ensures forall u :: u in Urls(rows) <==> exists i :: 0 <= i < |rows| && rows[i].url == u
  {
    if rows != [] {
      var init := rows[..|rows| - 1];
      UrlsMembers(init);
      assert forall i :: 0 <= i < |init| ==> init[i] == rows[i];
    }
  }

  /** The index of the first row whose url is `u`. */
  function FirstIndex(rows: seq<Row>, u: Option<string>): (i: nat)
    requires u in Urls(rows)
    ensures i < |rows| && rows[i].url == u
  {
    var init := rows[..|rows| - 1];
    if u in Urls(init) then FirstIndex(init, u) else |rows| - 1
  }

  lemma {:induction false} FirstIndexIsFirst(rows: seq<Row>, u: Option<string>)
    requires u in Urls(rows)
    ensures forall j :: 0 <= j < FirstIndex(rows, u) ==> rows[j].url != u
  {
    var init := rows[..|rows| - 1];
    if u in Urls(init) {
      FirstIndexIsFirst(init, u);
    } else {
      UrlsMembers(init);
    }
  }

  /** The frame without its later duplicates. Each kept row is the first
      row with its url, the kept rows appear in the order of those first
      occurrences, and every url of the input survives exactly once. */
  function DropDuplicates(rows: seq<Row>): (r: seq<Row>)
    ensures |r| <= |rows|
    ensures Urls(r) == Urls(rows)
    ensures forall j :: 0 <= j < |r| ==> r[j].url in Urls(rows) && r[j] == rows[FirstIndex(rows, r[j].url)]
    ensures forall j1, j2 :: 0 <= j1 < j2 < |r| ==>
      FirstIndex(rows, r[j1].url) < FirstIndex(rows, r[j2].url)
  {
    if rows == [] then []
    else
      var init := rows[..|rows| - 1];
      var last := rows[|rows| - 1];
      var kept := DropDuplicates(init);
      if last.url in Urls(init) then kept else kept + [last]
  }

  /** No two kept rows share a url. */
  lemma KeptUrlsDistinct(rows: seq<Row>)
    ensures var r := DropDuplicates(rows);
      forall j1, j2 :: 0 <= j1 < j2 < |r| ==> r[j1].url != r[j2].url
  {
  }

  /** When all urls differ nothing is dropped. */
  lemma {:induction false} DistinctUrlsKeepAll(rows: seq<Row>)
    requires forall i, j :: 0 <= i < j < |rows| ==> rows[i].url != rows[j].url
    ensures DropDuplicates(rows) == rows
  {
    if rows != [] {
      var init := rows[..|rows| - 1];
      DistinctInit(rows);
      DistinctUrlsKeepAll(init);
      KeepNewLast(rows);
      SplitLast(rows);
    }
  }

  /** Dropping the last row keeps the urls distinct, and the last url is
      not among the others. */
  lemma DistinctInit(rows: seq<Row>)
    requires rows != []
    requires forall i, j :: 0 <= i < j < |rows| ==> rows[i].url != rows[j].url
    ensures var init := rows[..|rows| - 1];
      && (forall i, j :: 0 <= i < j < |init| ==> init[i].url != init[j].url)
      && rows[|rows| - 1].url !in Urls(init)
  {
    var init := rows[..|rows| - 1];
    assert forall i :: 0 <= i < |init| ==> init[i] == rows[i];
    UrlsMembers(init);
  }

  lemma SplitLast(rows: seq<Row>)
    requires rows != []
    ensures rows == rows[..|rows| - 1] + [rows[|rows| - 1]]
  {
  }

  /** A last row whose url is new is kept, after the rows kept before it. */
  lemma KeepNewLast(rows: seq<Row>)
    requires rows != [] && rows[|rows| - 1].url !in Urls(rows[..|rows| - 1])
    ensures DropDuplicates(rows) == DropDuplicates(rows[..|rows| - 1]) + [rows[|rows| - 1]]
  {
  }

  /** The kept rows are as many as the distinct urls. */
  lemma KeptCountIsDistinctUrls(rows: seq<Row>)
    ensures |DropDuplicates(rows)| == |Urls(rows)|
  {
    var r := DropDuplicates(rows);
    KeptUrlsDistinct(rows);
    DistinctCount(r);
  }

  lemma {:induction false} DistinctCount(r: seq<Row>)
    requires forall j1, j2 :: 0 <= j1 < j2 < |r| ==> r[j1].url != r[j2].url
    ensures |Urls(r)| == |r|
  {
    if r != [] {
      var init := r[..|r| - 1];
      DistinctCount(init);
      UrlsMembers(init);
      assert r[|r| - 1].url !in Urls(init);
    }
  }

  /** If every url takes one of a few values, at most that many rows stay. */
  lemma FewUrlValues(rows: seq<Row>, values: set<Option<string>>)
    requires forall i :: 0 <= i < |rows| ==> rows[i].url in values
    ensures |DropDuplicates(rows)| <= |values|
  {
    KeptCountIsDistinctUrls(rows);
    UrlsMembers(rows);
    assert Urls(rows) <= values;
    SubsetCard(Urls(rows), values);
  }

  lemma SubsetCard<T>(a: set<T>, b: set<T>)
    requires a <= b
    ensures |a| <= |b|
  {
    assert b == a + (b - a);
  }
}
