/** The per-term body of the two main loops: post dates, duplicate removal
    and the sink (seekMysql.py:236-258, seekscraping.py:160-175). */
module Pipeline {
  import opened Wrappers
  import opened Records
  import opened Dates
  import opened PostDates
  import opened Listings
  import Dedup
  import Naming
  import Sink

  /** Why a term's batch stops the run: `calculate_post_date` raised, or
      no record has a `url` key, so the frame has no `url` column and
      `drop_duplicates(subset=['url'])` raises. */
  datatype BatchError = PostDateFailed(cause: DateError) | MissingUrlColumn

  /** What one pass of a main loop does with a term's records. `Rejected`
      is the MySQL script's pass whose table name the server cannot parse:
      `create_table` and `insert_data` both print their error and the run
      goes on to the next term with nothing stored. */
  datatype Outcome =
    | NoListings
    | Saved(target: string, rows: seq<Row>)
    | Rejected(target: string)
    | Failed(error: BatchError)

  /** `calculate_post_date` of one script, on the run's date. */
  function DateColumn(today: Date, style: DateStyle): string -> Result<string, DateError>
    requires Dates.Valid(today)
  {
    age => CalculatePostDate(age, today, style)
  }

  /** `df['post_date'] = df['posting_age'].apply(date)` followed by the
      column reorder: one row per record, or the error of the first
      record whose date cannot be computed. */
  function WithPostDates(jobs: seq<Job>, date: string -> Result<string, DateError>): (r: Result<seq<Row>, DateError>)
    ensures r.Success? <==> forall i :: 0 <= i < |jobs| ==> date(jobs[i].postingAge).Success?
    ensures r.Success? ==>
      && |r.value| == |jobs|
      && forall i :: 0 <= i < |jobs| ==> r.value[i] == ToRow(jobs[i], date(jobs[i].postingAge).value)
  {
    if jobs == [] then Success([])
    else
      var init, last := jobs[..|jobs| - 1], jobs[|jobs| - 1];
      match WithPostDates(init, date)
      case Failure(e) => Failure(e)
      case Success(rows) =>
        match date(last.postingAge)
        case Failure(e) => Failure(e)
        case Success(d) => Success(rows + [ToRow(last, d)])
  }

  /** Some record has a `url` key, so the frame has a `url` column. */
  predicate HasUrlColumn(jobs: seq<Job>) {
    exists i :: 0 <= i < |jobs| && jobs[i].url.Some?
  }

  /** Post dates, then `drop_duplicates(subset=['url'], keep='first')`
      (seekMysql.py:240-248, seekscraping.py:164-172). */
  function Prepare(jobs: seq<Job>, date: string -> Result<string, DateError>): (r: Result<seq<Row>, BatchError>)
    ensures WithPostDates(jobs, date).Failure? ==> r == Failure(PostDateFailed(WithPostDates(jobs, date).error))
    ensures WithPostDates(jobs, date).Success? && !HasUrlColumn(jobs) ==> r == Failure(MissingUrlColumn)
    ensures r.Success? <==> WithPostDates(jobs, date).Success? && HasUrlColumn(jobs)
    ensures r.Success? ==> r.value == Dedup.DropDuplicates(WithPostDates(jobs, date).value)
  {
    match WithPostDates(jobs, date)
    case Failure(e) => Failure(PostDateFailed(e))
    case Success(rows) =>
      if HasUrlColumn(jobs) then Success(Dedup.DropDuplicates(rows)) else Failure(MissingUrlColumn)
  }

  /** The url values among the rows are those among the records. */
  lemma RowUrls(jobs: seq<Job>, date: string -> Result<string, DateError>)
    requires WithPostDates(jobs, date).Success?
    ensures forall u :: u in Dedup.Urls(WithPostDates(jobs, date).value) <==>
      exists i :: 0 <= i < |jobs| && jobs[i].url == u
  {
    var rows := WithPostDates(jobs, date).value;
    Dedup.UrlsMembers(rows);
  }

  /** The rows that reach the sink carry pairwise distinct urls, and every
      url value among the records (a missing one included) is among them. */
  lemma PreparedUrls(jobs: seq<Job>, date: string -> Result<string, DateError>)
    requires Prepare(jobs, date).Success?
    ensures var r := Prepare(jobs, date).value;
      && (forall j1, j2 :: 0 <= j1 < j2 < |r| ==> r[j1].url != r[j2].url)
      && (forall u :: u in Dedup.Urls(r) <==> exists i :: 0 <= i < |jobs| && jobs[i].url == u)
  {
    var rows := WithPostDates(jobs, date).value;
    var r := Prepare(jobs, date).value;
    assert r == Dedup.DropDuplicates(rows);
    Dedup.KeptUrlsDistinct(rows);
    RowUrls(jobs, date);
  }

  /** Each row that reaches the sink is the first record with its url,
      with that record's post date. */
  lemma PreparedRowOrigin(jobs: seq<Job>, date: string -> Result<string, DateError>, j: nat)
    requires Prepare(jobs, date).Success?
    requires j < |Prepare(jobs, date).value|
    ensures exists i ::
      && 0 <= i < |jobs|
      && (forall k :: 0 <= k < i ==> jobs[k].url != jobs[i].url)
      && Prepare(jobs, date).value[j] == ToRow(jobs[i], date(jobs[i].postingAge).value)
  {
    var rows := WithPostDates(jobs, date).value;
    var r := Prepare(jobs, date).value;
    var i := Dedup.FirstIndex(rows, r[j].url);
    Dedup.FirstIndexIsFirst(rows, r[j].url);
    assert forall k :: 0 <= k < i ==> rows[k].url == jobs[k].url;
    assert r[j] == rows[i];
  }

  /** `create_table` then `insert_data` for one table (seekMysql.py:254-258):
      when the server accepts the name, the table is made if missing and the
      rows are upserted into it; otherwise both statements fail and nothing
      changes. No other table changes. */
  method Store(db: Sink.Database, name: string, rows: seq<Row>) returns (ok: bool)
    requires db.Valid()
    modifies db, db.tables.Values
    ensures db.Valid()
    ensures ok <==> Sink.PlainIdentifier(name)
    ensures !ok ==> db.tables == old(db.tables) && unchanged(db.tables.Values)
    ensures ok ==>
      && db.tables.Keys == old(db.tables.Keys) + {name}
      && db.tables[name].State()
         == Sink.UpsertAll(if name in old(db.tables) then old(db.tables[name].State()) else Sink.Empty, rows)
    ensures forall n :: n in old(db.tables) && n != name ==>
      n in db.tables && db.tables[n] == old(db.tables[n]) && db.tables[n].State() == old(db.tables[n].State())
  {
    ok := db.CreateTable(name);
    if ok {
      ghost var start := if name in old(db.tables) then old(db.tables[name].State()) else Sink.Empty;
      assert db.tables[name].State() == start;
      ghost var keys := db.tables.Keys;
      var inserted := db.InsertData(name, rows);
      assert db.tables.Keys == keys;
    } else {
      // Every table the database holds has a name the server accepts.
      assert name !in db.tables;
      var inserted := db.InsertData(name, rows);
    }
  }

  /** seekMysql.py:236-258: nothing happens for an empty scrape; otherwise
      the rows are prepared and stored in `<term>_jobs`; an error, or a
      table name the server rejects, leaves the database alone. */
  method SaveToDatabase(db: Sink.Database, term: string, jobs: seq<Job>, today: Date) returns (o: Outcome)
    requires Dates.Valid(today) && db.Valid()
    modifies db, db.tables.Values
    ensures db.Valid()
    ensures o.NoListings? <==> jobs == []
    ensures o.Failed? <==> jobs != [] && Prepare(jobs, DateColumn(today, Iso)).Failure?
    ensures o.Failed? ==> Prepare(jobs, DateColumn(today, Iso)) == Failure(o.error)
    ensures o.Rejected? <==>
      jobs != [] && Prepare(jobs, DateColumn(today, Iso)).Success? && !Sink.PlainIdentifier(Naming.TableName(term))
    ensures o.Rejected? ==> o.target == Naming.TableName(term)
    ensures !o.Saved? ==> db.tables == old(db.tables) && unchanged(db.tables.Values)
    ensures o.Saved? ==>
      var name := Naming.TableName(term);
      && o.target == name
      && Prepare(jobs, DateColumn(today, Iso)) == Success(o.rows)
      && db.tables.Keys == old(db.tables.Keys) + {name}
      && db.tables[name].State()
         == Sink.UpsertAll(if name in old(db.tables) then old(db.tables[name].State()) else Sink.Empty, o.rows)
    ensures forall n :: n in old(db.tables) && n != Naming.TableName(term) ==>
      n in db.tables && db.tables[n] == old(db.tables[n]) && db.tables[n].State() == old(db.tables[n].State())
  {
    if jobs == [] {
      return NoListings;
    }
    var prepared := Prepare(jobs, DateColumn(today, Iso));
    if prepared.Failure? {
      return Failed(prepared.error);
    }
    var name := Naming.TableName(term);
    var ok := Store(db, name, prepared.value);
    if ok {
      o := Saved(name, prepared.value);
    } else {
      o := Rejected(name);
    }
  }

  /** seekscraping.py:160-175: nothing is written for an empty scrape;
      otherwise the prepared rows go to the file named after the term and
      the location, unless preparing them raises. */
  function SaveToCsv(term: string, location: string, jobs: seq<Job>, today: Date): (o: Outcome)
    requires Dates.Valid(today)
    ensures o.NoListings? <==> jobs == []
    ensures o.Saved? ==>
      && o.target == Naming.CsvFileName(term, location)
      && Prepare(jobs, DateColumn(today, DayFirst)) == Success(o.rows)
    ensures o.Failed? <==> jobs != [] && Prepare(jobs, DateColumn(today, DayFirst)).Failure?
    ensures o.Saved? <==> jobs != [] && Prepare(jobs, DateColumn(today, DayFirst)).Success?
  {
    if jobs == [] then NoListings
    else
      match Prepare(jobs, DateColumn(today, DayFirst))
      case Failure(e) => Failed(e)
      case Success(rows) => Saved(Naming.CsvFileName(term, location), rows)
  }

  /** Every record seekMysql.py builds has a `url`. */
  lemma MysqlUrls(articles: seq<Article>)
    ensures forall i :: 0 <= i < |articles| ==> ExtractAll(articles, MysqlVariant)[i].url.Some?
  {
    forall i | 0 <= i < |articles|
      ensures ExtractAll(articles, MysqlVariant)[i].url.Some?
    {
      ExtractAllAt(articles, MysqlVariant, i);
      MysqlUrlField(articles[i]);
    }
  }

  /** A batch whose records all have a url never lacks the column, and
      every row it keeps has a url. */
  lemma KeyedBatch(jobs: seq<Job>, date: string -> Result<string, DateError>)
    requires jobs != []
    requires forall i :: 0 <= i < |jobs| ==> jobs[i].url.Some?
    ensures HasUrlColumn(jobs)
    ensures Prepare(jobs, date).Success? ==>
      forall j :: 0 <= j < |Prepare(jobs, date).value| ==> Prepare(jobs, date).value[j].url.Some?
  {
    assert jobs[0].url.Some?;
    if Prepare(jobs, date).Success? {
      PreparedUrls(jobs, date);
    }
  }

  /** The server takes "data_analyst_jobs" but not "c++_developer_jobs":
      the second term's pass ends `Rejected` with nothing stored. */
  lemma TableNamesAcceptedOrRejected()
    ensures Sink.PlainIdentifier(Naming.TableName("Data Analyst"))
    ensures !Sink.PlainIdentifier(Naming.TableName("C++ Developer"))
  {
    Naming.TableNameExample();
    DataAnalystAccepted();
    PlusRejected("C++ Developer", 1);
  }

  lemma DataAnalystAccepted()
    ensures Sink.PlainIdentifier("data_analyst_jobs")
  {
    assert !('0' <= "data_analyst_jobs"[0] <= '9');
  }

  /** A term with a '+' at index i gives a table name the server rejects. */
  lemma PlusRejected(term: string, i: nat)
    requires i < |term| && term[i] == '+'
    ensures !Sink.PlainIdentifier(Naming.TableName(term))
  {
    Naming.TableNameShape(term);
    assert Naming.TableName(term)[i] == '+';
  }

  /** Storing the same seekMysql.py scrape twice on the same day leaves the
      table as the first time left it. */
  lemma RescrapeChangesNothing(articles: seq<Article>, date: string -> Result<string, DateError>, s: Sink.TableState)
    requires articles != []
    requires Prepare(ExtractAll(articles, MysqlVariant), date).Success?
    ensures var rows := Prepare(ExtractAll(articles, MysqlVariant), date).value;
      Sink.UpsertAll(Sink.UpsertAll(s, rows), rows) == Sink.UpsertAll(s, rows)
  {
    var jobs := ExtractAll(articles, MysqlVariant);
    MysqlUrls(articles);
    KeyedBatch(jobs, date);
    Sink.BatchTwice(s, Prepare(jobs, date).value);
  }

  /** Every record seekscraping.py builds has url "N/A" or none. */
  lemma CsvUrls(articles: seq<Article>)
    ensures forall i :: 0 <= i < |articles| ==>
      ExtractAll(articles, CsvVariant)[i].url == Some(Listings.Missing) || ExtractAll(articles, CsvVariant)[i].url == None
  {
    forall i | 0 <= i < |articles|
      ensures ExtractAll(articles, CsvVariant)[i].url == Some(Listings.Missing) || ExtractAll(articles, CsvVariant)[i].url == None
    {
      ExtractAllAt(articles, CsvVariant, i);
      CsvUrlField(articles[i]);
    }
  }

  /** As written, seekscraping.py:89 replaces every canonical url by "N/A",
      so duplicate removal keeps at most one linked listing and one
      unlinked one, however many distinct listings were scraped. */
  lemma CsvDedupCollapses(articles: seq<Article>, date: string -> Result<string, DateError>)
    requires Prepare(ExtractAll(articles, CsvVariant), date).Success?
    ensures var r := Prepare(ExtractAll(articles, CsvVariant), date).value;
      && |r| <= 2
      && (forall j :: 0 <= j < |r| ==> r[j].url == Some(Listings.Missing) || r[j].url == None)
  {
    var jobs := ExtractAll(articles, CsvVariant);
    CsvUrls(articles);
    PreparedUrls(jobs, date);
    AtMostTwoRows(jobs, Prepare(jobs, date).value);
  }

  /** Rows with distinct urls, each taken from records whose urls are all
      "N/A" or missing, number at most two. */
  lemma AtMostTwoRows(jobs: seq<Job>, r: seq<Row>)
    requires forall i :: 0 <= i < |jobs| ==> jobs[i].url == Some(Listings.Missing) || jobs[i].url == None
    requires forall j1, j2 :: 0 <= j1 < j2 < |r| ==> r[j1].url != r[j2].url
    requires forall u :: u in Dedup.Urls(r) ==> exists i :: 0 <= i < |jobs| && jobs[i].url == u
    ensures |r| <= 2
    ensures forall j :: 0 <= j < |r| ==> r[j].url == Some(Listings.Missing) || r[j].url == None
  {
    var values := {Some(Listings.Missing), None};
    Dedup.UrlsMembers(r);
    forall j | 0 <= j < |r|
      ensures r[j].url in values
    {
      assert r[j].url in Dedup.Urls(r);
    }
    DistinctWithin(r, values);
    SentinelOrMissing();
  }

  lemma SentinelOrMissing()
    ensures |{Some(Listings.Missing), None}| == 2
  {
  }

  /** Rows with pairwise distinct urls drawn from `values` number at most
      `|values|`. */
  lemma DistinctWithin(r: seq<Row>, values: set<Option<string>>)
    requires forall j1, j2 :: 0 <= j1 < j2 < |r| ==> r[j1].url != r[j2].url
    requires forall j :: 0 <= j < |r| ==> r[j].url in values
    ensures |r| <= |values|
  {
    Dedup.UrlsMembers(r);
    Dedup.DistinctCount(r);
    Dedup.SubsetCard(Dedup.Urls(r), values);
  }

  /** Two linked listings, whatever their links, end up as one CSV row. */
  lemma TwoListingsOneRow(a: Article, b: Article, date: string -> Result<string, DateError>)
    requires a.titleLink.Some? && b.titleLink.Some?
    requires Prepare(ExtractAll([a, b], CsvVariant), date).Success?
    ensures |Prepare(ExtractAll([a, b], CsvVariant), date).value| == 1
  {
    var jobs := ExtractAll([a, b], CsvVariant);
    ExtractAllAt([a, b], CsvVariant, 0);
    ExtractAllAt([a, b], CsvVariant, 1);
    CsvUrlField(a);
    CsvUrlField(b);
    OneUrl(jobs, date);
  }

  /** Records that all carry the url "N/A" leave exactly one row. */
  lemma OneUrl(jobs: seq<Job>, date: string -> Result<string, DateError>)
    requires |jobs| == 2 && jobs[0].url == Some(Listings.Missing) && jobs[1].url == Some(Listings.Missing)
    requires Prepare(jobs, date).Success?
    ensures |Prepare(jobs, date).value| == 1
  {
    var r := Prepare(jobs, date).value;
    PreparedUrls(jobs, date);
    Dedup.UrlsMembers(r);
    assert Some(Listings.Missing) in Dedup.Urls(r);
    forall j | 0 <= j < |r|
      ensures r[j].url in {Some(Listings.Missing)}
    {
      assert r[j].url in Dedup.Urls(r);
    }
    DistinctWithin(r, {Some(Listings.Missing)});
  }

  /** With the canonical url kept, as seekMysql.py:107-109 does, listings
      whose links lead to distinct pages all survive duplicate removal. */
  lemma CanonicalUrlsKeepListings(articles: seq<Article>, date: string -> Result<string, DateError>)
    requires forall i :: 0 <= i < |articles| ==> articles[i].titleLink.Some?
    requires forall i, j :: 0 <= i < j < |articles| ==>
      CanonicalUrl(articles[i].titleLink.value.href) != CanonicalUrl(articles[j].titleLink.value.href)
    requires Prepare(ExtractAll(articles, MysqlVariant), date).Success?
    ensures |Prepare(ExtractAll(articles, MysqlVariant), date).value| == |articles|
  {
    var jobs := ExtractAll(articles, MysqlVariant);
    var rows := WithPostDates(jobs, date).value;
    forall i | 0 <= i < |articles|
      ensures rows[i].url == Some(CanonicalUrl(articles[i].titleLink.value.href))
    {
      ExtractAllAt(articles, MysqlVariant, i);
      MysqlUrlField(articles[i]);
    }
    Dedup.DistinctUrlsKeepAll(rows);
  }
}
