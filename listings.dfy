/** `parse_job_listings`: one job record per listing container of a result
    page. The HTML parser's selector matching is not modelled; each
    container arrives as an `Article` whose elements are already located
    (`None` where `find` found nothing). */
module Listings {
  import opened Wrappers
  import opened Text
  import opened Records

  /** The title link `a._1047lqyg`: its text and its `href`. */
  datatype Anchor = Anchor(text: string, href: string)

  /** One `article._1047lqyb`, as the texts of the elements found in it. */
  datatype Article = Article(
    titleLink: Option<Anchor>,
    company: Option<string>,
    location: Option<string>,
    salary: Option<string>,
    classification: Option<string>,
    listingDate: Option<string>,
    /** one entry per `li.onhoxh6m`: the text of its `span._1rhqcq74`, if any */
    bullets: seq<Option<string>>,
    /** the `jobShortDescription` span */
    summary: Option<string>)

  /** seekMysql.py keeps the canonical url; seekscraping.py overwrites it. */
  datatype Variant = MysqlVariant | CsvVariant

  const Missing := "N/A"
  const Origin := "https://www.seek.com.au"
  const Separator := " | "
  const Parens: set<char> := {'(', ')'}

  /** `elem.text.strip() if elem else 'N/A'`. */
  function ElementText(e: Option<string>): string {
    if e.Some? then Strip(e.value, Whitespace) else Missing
  }

  /** `elem.text.strip().strip('()')`, or `'N/A'`. */
  function ClassificationText(e: Option<string>): string {
    if e.Some? then Strip(Strip(e.value, Whitespace), Parens) else Missing
  }

  /** The stripped texts of the bullet spans, in document order. */
  function Fragments(bullets: seq<Option<string>>): (r: seq<string>)
    ensures |r| <= |bullets|
  {
    if bullets == [] then []
    else
      var last := bullets[|bullets| - 1];
      Fragments(bullets[..|bullets| - 1])
        + (if last.Some? then [Strip(last.value, Whitespace)] else [])
  }

  /** The `description` list: the fragments, then the short summary. */
  function DescriptionParts(bullets: seq<Option<string>>, summary: Option<string>): seq<string> {
    Fragments(bullets) + (if summary.Some? then [Strip(summary.value, Whitespace)] else [])
  }

  /** `f"https://www.seek.com.au{href}".split('?')[0]`. */
  function CanonicalUrl(href: string): string {
    BeforeFirst(Origin + href, '?')
  }

  /** The `url` entry of the dict, `None` when the key is never set. */
  function UrlField(link: Option<Anchor>, v: Variant): Option<string> {
    match v
    case MysqlVariant => Some(if link.Some? then CanonicalUrl(link.value.href) else Missing)
    case CsvVariant => if link.Some? then Some(Missing) else None
  }

  /** The dict built for one article. */
  function ExtractJob(a: Article, v: Variant): Job {
    Job(
      ElementText(if a.titleLink.Some? then Some(a.titleLink.value.text) else None),
      ElementText(a.company),
      ElementText(a.location),
      ElementText(a.salary),
      ClassificationText(a.classification),
      ElementText(a.listingDate),
      Join(DescriptionParts(a.bullets, a.summary), Separator),
      UrlField(a.titleLink, v))
  }

  /** The loop over the bullet items, then the summary. */
  method CollectDescription(bullets: seq<Option<string>>, summary: Option<string>)
    returns (description: seq<string>)
    ensures description == DescriptionParts(bullets, summary)
  {
    description := [];
    var i := 0;
    while i < |bullets|
      invariant 0 <= i <= |bullets|
      invariant description == Fragments(bullets[..i])
    {
      var descText := bullets[i];
      if descText.Some? {
        description := description + [Strip(descText.value, Whitespace)];
      }
      assert bullets[..i + 1][..i] == bullets[..i];
      i := i + 1;
    }
    assert bullets[..i] == bullets;
    if summary.Some? {
      description := description + [Strip(summary.value, Whitespace)];
    }
  }

  /** The body of the loop over articles: the dict filled field by field. */
  method ParseArticle(a: Article, v: Variant) returns (job: Job)
    ensures job == ExtractJob(a, v)
  {
    var title := if a.titleLink.Some? then Strip(a.titleLink.value.text, Whitespace) else Missing;
    var company := ElementText(a.company);
    var location := ElementText(a.location);
    var salary := ElementText(a.salary);
    var classification := Missing;
    if a.classification.Some? {
      classification := Strip(Strip(a.classification.value, Whitespace), Parens);
    }
    var postingAge := ElementText(a.listingDate);
    var description := CollectDescription(a.bullets, a.summary);
    var shortDescription := Join(description, Separator);
    var url: Option<string> := None;
    match v {
      case MysqlVariant =>
        if a.titleLink.Some? {
          var fullUrl := Origin + a.titleLink.value.href;
          url := Some(BeforeFirst(fullUrl, '?'));
        } else {
          url := Some(Missing);
        }
      case CsvVariant =>
        if a.titleLink.Some? {
          var fullUrl := Origin + a.titleLink.value.href;
          url := Some(BeforeFirst(fullUrl, '?'));
          url := Some(Missing);
        }
    }
    job := Job(title, company, location, salary, classification, postingAge, shortDescription, url);
  }

  /** The records `parse_job_listings` returns, as a function: one per
      article, in document order. */
  function ExtractAll(articles: seq<Article>, v: Variant): (r: seq<Job>)
    ensures |r| == |articles|
  {
    if articles == [] then []
    else ExtractAll(articles[..|articles| - 1], v) + [ExtractJob(articles[|articles| - 1], v)]
  }

  /** Record `i` is the one extracted from article `i`. */
  lemma {:induction false} ExtractAllAt(articles: seq<Article>, v: Variant, i: nat)
    requires i < |articles|
    ensures ExtractAll(articles, v)[i] == ExtractJob(articles[i], v)
  {
    if i < |articles| - 1 {
      ExtractAllAt(articles[..|articles| - 1], v, i);
    }
  }

  /** `parse_job_listings`: the loop over articles. */
  method ParseJobListings(articles: seq<Article>, v: Variant) returns (jobs: seq<Job>)
    ensures jobs == ExtractAll(articles, v)
  {
    jobs := [];
    var i := 0;
    while i < |articles|
      invariant 0 <= i <= |articles|
      invariant jobs == ExtractAll(articles[..i], v)
    {
      var job := ParseArticle(articles[i], v);
      assert articles[..i + 1][..i] == articles[..i];
      jobs := jobs + [job];
      i := i + 1;
    }
    assert articles[..i] == articles;
  }

  /** A field is the sentinel exactly when its element is missing or the
      element's own text, stripped, reads "N/A"; it depends on no other
      element of the article. */
  lemma FieldIsolation(a: Article, b: Article, v: Variant)
    ensures var j := ExtractJob(a, v);
      && (j.company == Missing <==> a.company.None? || Strip(a.company.value, Whitespace) == Missing)
      && (j.location == Missing <==> a.location.None? || Strip(a.location.value, Whitespace) == Missing)
      && (j.salary == Missing <==> a.salary.None? || Strip(a.salary.value, Whitespace) == Missing)
      && (j.postingAge == Missing <==> a.listingDate.None? || Strip(a.listingDate.value, Whitespace) == Missing)
      && (j.title == Missing <==> a.titleLink.None? || Strip(a.titleLink.value.text, Whitespace) == Missing)
      && (j.classification == Missing <==>
            a.classification.None? || Strip(Strip(a.classification.value, Whitespace), Parens) == Missing)
    ensures a.titleLink == b.titleLink ==> ExtractJob(a, v).title == ExtractJob(b, v).title
    ensures a.company == b.company ==> ExtractJob(a, v).company == ExtractJob(b, v).company
    ensures a.location == b.location ==> ExtractJob(a, v).location == ExtractJob(b, v).location
    ensures a.salary == b.salary ==> ExtractJob(a, v).salary == ExtractJob(b, v).salary
    ensures a.classification == b.classification ==>
      ExtractJob(a, v).classification == ExtractJob(b, v).classification
    ensures a.listingDate == b.listingDate ==> ExtractJob(a, v).postingAge == ExtractJob(b, v).postingAge
  {
  }

  /** A present element's text loses exactly its surrounding whitespace. */
  lemma PresentFieldIsTrimmedText(pre: string, text: string, suf: string)
    requires forall i :: 0 <= i < |pre| ==> pre[i] in Whitespace
    requires forall i :: 0 <= i < |suf| ==> suf[i] in Whitespace
    requires text == [] || (text[0] !in Whitespace && text[|text| - 1] !in Whitespace)
    ensures ElementText(Some(pre + text + suf)) == text
  {
    StripCharacterised(pre, text, suf, Whitespace);
  }

  /** The classification keeps no '(' or ')' at either end, and it is a
      slice of the trimmed text with only parentheses cut from each side. */
  lemma ClassificationHasNoOuterParens(t: string)
    ensures var r := ClassificationText(Some(t));
      && (r == [] || (r[0] !in Parens && r[|r| - 1] !in Parens))
      && IsParenStripOf(r, Strip(t, Whitespace))
  {
    ParenStripShape(Strip(t, Whitespace));
  }

  lemma ParenStripShape(s: string)
    ensures var r := Strip(s, Parens);
      && (r == [] || (r[0] !in Parens && r[|r| - 1] !in Parens))
      && IsParenStripOf(r, s)
  {
    var r := Strip(s, Parens);
    var k := |s| - |StripLeft(s, Parens)|;
    assert r == s[k..k + |r|];
    assert ParenStripAt(r, s, k);
  }

  /** `r` is `s` with a run of parentheses cut from each end. */
  ghost predicate IsParenStripOf(r: string, s: string) {
    exists k :: ParenStripAt(r, s, k)
  }

  /** `r` starts at index `k` of `s`, and only parentheses lie around it. */
  ghost predicate ParenStripAt(r: string, s: string, k: int) {
    && 0 <= k <= k + |r| <= |s| && r == s[k..k + |r|]
    && (forall i :: 0 <= i < k ==> s[i] in Parens)
    && (forall i :: k + |r| <= i < |s| ==> s[i] in Parens)
  }

  /** "(Banking & Finance)" becomes "Banking & Finance"; every run of
      parentheses at either end goes, not only one enclosing pair. */
  lemma ClassificationUnwrapped(open: string, inner: string, close: string)
    requires forall i :: 0 <= i < |open| ==> open[i] in Parens
    requires forall i :: 0 <= i < |close| ==> close[i] in Parens
    requires inner == [] || (inner[0] !in Parens && inner[|inner| - 1] !in Parens)
    requires open != [] && close != []
    ensures ClassificationText(Some(open + inner + close)) == inner
  {
    var s := open + inner + close;
    assert s[0] !in Whitespace && s[|s| - 1] !in Whitespace;
    assert s == [] + s + [];
    StripCharacterised([], s, [], Whitespace);
    StripCharacterised(open, inner, close, Parens);
  }

  /** The url seekMysql.py stores: the origin plus `href`, cut before the
      first '?'. It has no '?', it is a prefix of the full url, and it is
      the full url exactly when `href` has no '?'. */
  lemma CanonicalUrlProperties(href: string)
    ensures var u := CanonicalUrl(href);
      && '?' !in u
      && u == (Origin + href)[..|u|]
      && |Origin| <= |u| && u[..|Origin|] == Origin
      && (u == Origin + href <==> '?' !in href)
      && ('?' in href ==> (Origin + href)[|u|] == '?')
  {
    assert '?' !in Origin;
    BeforeFirstAfterPrefix(Origin, href, '?');
    BeforeFirstNoOccurrence(href, '?');
  }

  /** "https://www.seek.com.au" + "/job/123?ref=abc" is stored as
      "https://www.seek.com.au/job/123". */
  lemma CanonicalUrlExample()
    ensures CanonicalUrl("/job/123?ref=abc") == Origin + "/job/123"
  {
    var path, query := "/job/123", "?ref=abc";
    assert "/job/123?ref=abc" == path + query;
    assert BeforeFirst(query, '?') == [];
    assert '?' !in path by {
      assert forall i :: 0 <= i < |path| ==> path[i] != '?';
    }
    assert '?' !in Origin by {
      assert forall i :: 0 <= i < |Origin| ==> Origin[i] != '?';
    }
    assert Origin + (path + query) == (Origin + path) + query;
    BeforeFirstAfterPrefix(Origin + path, query, '?');
    assert Origin + path + [] == Origin + path;
  }

  /** seekMysql.py: the url is the canonical link when there is a title link
      and "N/A" otherwise; it is always set. */
  lemma MysqlUrlField(a: Article)
    ensures ExtractJob(a, MysqlVariant).url.Some?
    ensures a.titleLink.Some? ==>
      ExtractJob(a, MysqlVariant).url == Some(CanonicalUrl(a.titleLink.value.href))
    ensures a.titleLink.None? ==> ExtractJob(a, MysqlVariant).url == Some(Missing)
  {
  }

  /** seekscraping.py: line 89 overwrites the canonical url, so every linked
      record has url "N/A", and a record without a link has no url key. */
  lemma CsvUrlField(a: Article)
    ensures a.titleLink.Some? <==> ExtractJob(a, CsvVariant).url == Some(Missing)
    ensures a.titleLink.None? <==> ExtractJob(a, CsvVariant).url.None?
  {
  }

  /** The two scrapers build the same record except for `url`. */
  lemma VariantsDifferOnlyInUrl(a: Article)
    ensures ExtractJob(a, CsvVariant) == ExtractJob(a, MysqlVariant).(url := UrlField(a.titleLink, CsvVariant))
  {
  }

  lemma {:induction false} FragmentsConcat(a: seq<Option<string>>, b: seq<Option<string>>)
    ensures Fragments(a + b) == Fragments(a) + Fragments(b)
  {
    if b != [] {
      assert (a + b)[..|a + b| - 1] == a + b[..|b| - 1];
      FragmentsConcat(a, b[..|b| - 1]);
    } else {
      assert a + b == a;
    }
  }

  /** Only bullets that have the inner span contribute, each once, in order:
      bullet `k` contributes at position "number of spans before `k`". */
  lemma {:induction false} FragmentAt(bullets: seq<Option<string>>, k: nat)
    requires k < |bullets| && bullets[k].Some?
    ensures var n := |Fragments(bullets[..k])|;
      n < |Fragments(bullets)| && Fragments(bullets)[n] == Strip(bullets[k].value, Whitespace)
  {
    assert bullets == bullets[..k] + [bullets[k]] + bullets[k + 1..];
    FragmentsConcat(bullets[..k] + [bullets[k]], bullets[k + 1..]);
    FragmentsConcat(bullets[..k], [bullets[k]]);
    assert Fragments([bullets[k]]) == [Strip(bullets[k].value, Whitespace)] by {
      assert [bullets[k]][..0] == [];
    }
  }

  lemma {:induction false} NoSpansNoFragments(bullets: seq<Option<string>>)
    ensures Fragments(bullets) == [] <==> forall k :: 0 <= k < |bullets| ==> bullets[k].None?
  {
    if bullets != [] {
      NoSpansNoFragments(bullets[..|bullets| - 1]);
      var init := bullets[..|bullets| - 1];
      assert forall k :: 0 <= k < |init| ==> init[k] == bullets[k];
    }
  }

  /** `short_description` is the fragments joined by " | ": empty when there
      is nothing to join, and the summary, when present, comes last after
      the bullet fragments. */
  lemma ShortDescriptionLayout(a: Article, v: Variant)
    ensures var d := ExtractJob(a, v).shortDescription;
      && (Fragments(a.bullets) == [] && a.summary.None? ==> d == "")
      && (Fragments(a.bullets) == [] && a.summary.Some? ==> d == Strip(a.summary.value, Whitespace))
      && (Fragments(a.bullets) != [] && a.summary.Some? ==>
            d == Join(Fragments(a.bullets), Separator) + Separator + Strip(a.summary.value, Whitespace))
      && (a.summary.None? ==> d == Join(Fragments(a.bullets), Separator))
  {
    var f := Fragments(a.bullets);
    if f != [] && a.summary.Some? {
      var parts := DescriptionParts(a.bullets, a.summary);
      JoinSplit(parts, Separator, |f|);
      assert parts[..|f|] == f;
      assert parts[|f|..] == [Strip(a.summary.value, Whitespace)];
    }
    if a.summary.None? {
      assert DescriptionParts(a.bullets, a.summary) == f;
    }
  }
}
