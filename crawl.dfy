/** `scrape_job_title`: the search url for one term, the url of each result
    page, and the loop that fetches pages 1..N and collects their records.
    The HTTP fetch is a parameter: it maps a page url to the located
    articles of that page, or to `None` when `get_html` returned nothing
    usable (a request error, or an empty body, which `if html_content:`
    treats as a failure too). */
module Crawl {
  import opened Wrappers
  import opened Text
  import opened Numerals
  import opened Records
  import opened Listings

  /** The configuration constants the function reads. */
  datatype SearchConfig = SearchConfig(
    location: string,
    salaryRange: string,
    salaryType: string,
    pagesToSearch: nat)

  const SearchRoot := "https://www.seek.com.au/"
  const QueryEnd: set<char> := {'&', '?'}

  /** `s.replace(" ", "-")`. */
  function Slug(s: string): string {
    ReplaceChar(s, ' ', '-')
  }

  /** The path part: term slug, "-jobs" and the optional location part. */
  function SearchPath(term: string, location: string): string {
    SearchRoot + Slug(term) + "-jobs" + (if location != "" then "/in-" + Slug(location) else "")
  }

  predicate HasSalaryFilter(cfg: SearchConfig) {
    cfg.salaryRange != "" && cfg.salaryType != ""
  }

  /** `base_url` just before `rstrip('&?')`. */
  function RawBaseUrl(term: string, cfg: SearchConfig): string {
    SearchPath(term, cfg.location) + "?"
      + (if HasSalaryFilter(cfg)
         then "salaryrange=" + cfg.salaryRange + "&salarytype=" + cfg.salaryType + "&"
         else "")
  }

  function BaseUrl(term: string, cfg: SearchConfig): (b: string)
    ensures var raw := RawBaseUrl(term, cfg);
      && |b| <= |raw| && b == raw[..|b|]
      && (|b| == 0 || b[|b| - 1] !in QueryEnd)
      && (forall i :: |b| <= i < |raw| ==> raw[i] in QueryEnd)
  {
    StripRight(RawBaseUrl(term, cfg), QueryEnd)
  }

  /** The base url, built as the source builds it: piece by piece, then
      trailing '&' and '?' characters removed. */
  method BuildBaseUrl(term: string, cfg: SearchConfig) returns (baseUrl: string)
    ensures baseUrl == BaseUrl(term, cfg)
  {
    var termUrl := ReplaceChar(term, ' ', '-');
    baseUrl := SearchRoot + termUrl + "-jobs";
    if cfg.location != "" {
      var locationUrl := ReplaceChar(cfg.location, ' ', '-');
      baseUrl := baseUrl + "/in-" + locationUrl;
    }
    assert baseUrl == SearchPath(term, cfg.location);
    baseUrl := baseUrl + "?";
    if cfg.salaryRange != "" && cfg.salaryType != "" {
      baseUrl := baseUrl + "salaryrange=" + cfg.salaryRange + "&salarytype=" + cfg.salaryType + "&";
    }
    assert baseUrl == RawBaseUrl(term, cfg);
    baseUrl := StripRight(baseUrl, QueryEnd);
  }

  /** `f"{base_url}&page={page}" if '?' in base_url else f"{base_url}?page={page}"`. */
  function PageUrl(baseUrl: string, page: nat): string {
    if '?' in baseUrl then baseUrl + "&page=" + Decimal(page)
    else baseUrl + "?page=" + Decimal(page)
  }

  /** The records one page contributes: its parsed articles, or nothing.
      `parse` is `parse_job_listings` (`Parser(v)` below); the properties of
      the crawl hold whatever it is. */
  function PageJobs(baseUrl: string, page: nat, fetch: string -> Option<seq<Article>>, parse: seq<Article> -> seq<Job>): seq<Job> {
    match fetch(PageUrl(baseUrl, page))
    case Some(articles) => parse(articles)
    case None => []
  }

  /** `all_job_listings` after pages 1..n. */
  function Crawled(baseUrl: string, n: nat, fetch: string -> Option<seq<Article>>, parse: seq<Article> -> seq<Job>): seq<Job> {
    if n == 0 then [] else Crawled(baseUrl, n - 1, fetch, parse) + PageJobs(baseUrl, n, fetch, parse)
  }

  function Parser(v: Variant): seq<Article> -> seq<Job> {
    articles => ExtractAll(articles, v)
  }

  /** `scrape_job_title(job_title)`; the pause between requests is left out. */
  method ScrapeJobTitle(term: string, cfg: SearchConfig, fetch: string -> Option<seq<Article>>, v: Variant)
    returns (allJobListings: seq<Job>)
    ensures allJobListings == Crawled(BaseUrl(term, cfg), cfg.pagesToSearch, fetch, Parser(v))
  {
    var baseUrl := BuildBaseUrl(term, cfg);
    allJobListings := FetchPages(baseUrl, cfg.pagesToSearch, fetch, v);
  }

  /** The page loop of `scrape_job_title`: pages 1..pagesToSearch, each
      fetched, parsed when it came back and appended in page order. */
  method FetchPages(baseUrl: string, pagesToSearch: nat, fetch: string -> Option<seq<Article>>, v: Variant)
    returns (allJobListings: seq<Job>)
    ensures allJobListings == Crawled(baseUrl, pagesToSearch, fetch, Parser(v))
  {
    allJobListings := [];
    var page := 1;
    while page <= pagesToSearch
      invariant 1 <= page <= pagesToSearch + 1
      invariant allJobListings == Crawled(baseUrl, page - 1, fetch, Parser(v))
    {
      var jobListings := FetchPage(baseUrl, page, fetch, v);
      CrawledStep(baseUrl, page, fetch, Parser(v), jobListings);
      allJobListings := allJobListings + jobListings;
      page := page + 1;
    }
  }

  /** One iteration of the page loop: the page url, the fetch, and the
      parse when the fetch came back. */
  method FetchPage(baseUrl: string, page: nat, fetch: string -> Option<seq<Article>>, v: Variant)
    returns (jobListings: seq<Job>)
    ensures jobListings == PageJobs(baseUrl, page, fetch, Parser(v))
  {
    var url := PageUrl(baseUrl, page);
    var htmlContent := fetch(url);
    jobListings := [];
    if htmlContent.Some? {
      jobListings := ParseJobListings(htmlContent.value, v);
    }
  }

  /** One more page appends what that page contributes. */
  lemma CrawledStep(baseUrl: string, page: nat, fetch: string -> Option<seq<Article>>,
                    parse: seq<Article> -> seq<Job>, jobs: seq<Job>)
    requires page >= 1
    requires jobs == PageJobs(baseUrl, page, fetch, parse)
    ensures Crawled(baseUrl, page, fetch, parse) == Crawled(baseUrl, page - 1, fetch, parse) + jobs
  {
  }

  /** Without a salary filter, the base url is the search path with any
      trailing '&'/'?' removed; when the path does not end in one of them
      it is the path itself, and it has no '?' unless the term or the
      location has one. */
  lemma BaseUrlWithoutSalary(term: string, cfg: SearchConfig)
    requires !HasSalaryFilter(cfg)
    ensures BaseUrl(term, cfg) == StripRight(SearchPath(term, cfg.location), QueryEnd)
    ensures '?' !in term && '?' !in cfg.location ==> '?' !in BaseUrl(term, cfg)
  {
    var p := SearchPath(term, cfg.location);
    assert RawBaseUrl(term, cfg) == p + "?";
    StripRightAppend(p, "?");
    var b := BaseUrl(term, cfg);
    if '?' !in term && '?' !in cfg.location {
      NoQuestionInPath(term, cfg.location);
      assert b == p[..|b|];
      assert forall i :: 0 <= i < |b| ==> b[i] == p[i];
    }
  }

  lemma NoQuestionInPath(term: string, location: string)
    requires '?' !in term && '?' !in location
    ensures '?' !in SearchPath(term, location)
  {
    assert '?' !in SearchRoot by {
      assert forall i :: 0 <= i < |SearchRoot| ==> SearchRoot[i] != '?';
    }
    assert forall i :: 0 <= i < |Slug(term)| ==> Slug(term)[i] != '?';
    assert forall i :: 0 <= i < |Slug(location)| ==> Slug(location)[i] != '?';
  }

  lemma StripRightAppend(p: string, tail: string)
    requires forall i :: 0 <= i < |tail| ==> tail[i] in QueryEnd
    ensures StripRight(p + tail, QueryEnd) == StripRight(p, QueryEnd)
  {
    var s := p + tail;
    var n := TrailingStart(p, QueryEnd, |p|);
    TrailingStartAt(s, QueryEnd, |s|, n);
    assert s[..n] == p[..n];
  }

  /** With both salary values set (and the salary type not ending in '&'
      or '?'), the base url is the search path with the two query
      parameters, and so has a '?'. */
  lemma BaseUrlWithSalary(term: string, cfg: SearchConfig)
    requires HasSalaryFilter(cfg)
    requires cfg.salaryType[|cfg.salaryType| - 1] !in QueryEnd
    ensures BaseUrl(term, cfg) ==
      SearchPath(term, cfg.location) + "?salaryrange=" + cfg.salaryRange + "&salarytype=" + cfg.salaryType
    ensures '?' in BaseUrl(term, cfg)
  {
    var q := SearchPath(term, cfg.location) + "?salaryrange=" + cfg.salaryRange + "&salarytype=" + cfg.salaryType;
    SalaryQueryTail(SearchPath(term, cfg.location), cfg.salaryRange, cfg.salaryType);
    StripRightAppend(q, "&");
    assert StripRight(q, QueryEnd) == q;
    assert q[|SearchPath(term, cfg.location)|] == '?';
  }

  lemma SalaryQueryTail(p: string, range: string, kind: string)
    ensures p + "?" + ("salaryrange=" + range + "&salarytype=" + kind + "&")
      == (p + "?salaryrange=" + range + "&salarytype=" + kind) + "&"
  {
  }

  /** A page url is the base, one separator ('&' when the base already has a
      query, '?' otherwise), "page=" and the page number, which reads back
      as `page`. */
  lemma PageUrlShape(baseUrl: string, page: nat)
    ensures var u := PageUrl(baseUrl, page);
      var sep := if '?' in baseUrl then '&' else '?';
      && u == baseUrl + [sep] + "page=" + Decimal(page)
      && '?' in u
      && Value(u[|baseUrl| + 6..]) == page
  {
    var u := PageUrl(baseUrl, page);
    var sep := if '?' in baseUrl then '&' else '?';
    assert u == baseUrl + [sep] + "page=" + Decimal(page);
    assert u[|baseUrl| + 6..] == Decimal(page);
    DecimalRoundTrip(page);
    if '?' !in baseUrl {
      assert u[|baseUrl|] == '?';
    }
  }

  /** Pages only append: the records after `k` pages are a prefix of the
      records after `n >= k` pages. */
  lemma {:induction false} CrawlPrefix(baseUrl: string, k: nat, n: nat, fetch: string -> Option<seq<Article>>, parse: seq<Article> -> seq<Job>)
    requires k <= n
    ensures var c := Crawled(baseUrl, n, fetch, parse);
      |Crawled(baseUrl, k, fetch, parse)| <= |c| && Crawled(baseUrl, k, fetch, parse) == c[..|Crawled(baseUrl, k, fetch, parse)|]
  {
    var c := Crawled(baseUrl, n, fetch, parse);
    var ck := Crawled(baseUrl, k, fetch, parse);
    if k < n {
      CrawlPrefix(baseUrl, k, n - 1, fetch, parse);
      var prev := Crawled(baseUrl, n - 1, fetch, parse);
      assert c == prev + PageJobs(baseUrl, n, fetch, parse);
      assert c[..|ck|] == prev[..|ck|];
    } else {
      assert c[..|ck|] == c;
    }
  }

  /** Page `k`'s records sit, in order, right after those of pages 1..k-1;
      a failed page contributes nothing. */
  lemma CrawlPageSlice(baseUrl: string, k: nat, n: nat, fetch: string -> Option<seq<Article>>, parse: seq<Article> -> seq<Job>)
    requires 1 <= k <= n
    ensures var c := Crawled(baseUrl, n, fetch, parse);
      var lo := |Crawled(baseUrl, k - 1, fetch, parse)|;
      var hi := |Crawled(baseUrl, k, fetch, parse)|;
      && lo <= hi <= |c|
      && c[lo..hi] == PageJobs(baseUrl, k, fetch, parse)
      && (fetch(PageUrl(baseUrl, k)).None? ==> lo == hi)
  {
    CrawlPrefix(baseUrl, k, n, fetch, parse);
  }

  /** Every collected record comes from a page in 1..n whose fetch
      succeeded. */
  lemma {:induction false} CrawlOrigin(baseUrl: string, n: nat, fetch: string -> Option<seq<Article>>, parse: seq<Article> -> seq<Job>, j: nat)
    requires j < |Crawled(baseUrl, n, fetch, parse)|
    ensures exists k ::
      && 1 <= k <= n
      && fetch(PageUrl(baseUrl, k)).Some?
      && Crawled(baseUrl, n, fetch, parse)[j] in PageJobs(baseUrl, k, fetch, parse)
  {
    var prev := Crawled(baseUrl, n - 1, fetch, parse);
    var c := Crawled(baseUrl, n, fetch, parse);
    if j < |prev| {
      CrawlOrigin(baseUrl, n - 1, fetch, parse, j);
      assert c[j] == prev[j];
    } else {
      assert c[j] == PageJobs(baseUrl, n, fetch, parse)[j - |prev|];
    }
  }

  /** When every fetch fails the crawl yields nothing. */
  lemma {:induction false} CrawlAllFailed(baseUrl: string, n: nat, fetch: string -> Option<seq<Article>>, parse: seq<Article> -> seq<Job>)
    requires forall k :: 1 <= k <= n ==> fetch(PageUrl(baseUrl, k)).None?
    ensures Crawled(baseUrl, n, fetch, parse) == []
  {
    if n > 0 {
      CrawlAllFailed(baseUrl, n - 1, fetch, parse);
    }
  }

  /** Two pages, the second fails: the crawl is exactly the first page's
      records. */
  lemma SecondPageFails(baseUrl: string, fetch: string -> Option<seq<Article>>, parse: seq<Article> -> seq<Job>, articles: seq<Article>)
    requires fetch(PageUrl(baseUrl, 1)) == Some(articles)
    requires fetch(PageUrl(baseUrl, 2)).None?
    ensures Crawled(baseUrl, 2, fetch, parse) == parse(articles)
  {
    assert Crawled(baseUrl, 1, fetch, parse) == [] + parse(articles);
  }
}
