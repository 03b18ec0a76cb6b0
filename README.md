# Seek job scraper: verified model of the non-network core

The repository has two scripts that scrape job listings from seek.com.au:

- `seekMysql.py` stores the listings in MySQL, in one `<term>_jobs` table per search term.
- `seekscraping.py` writes one CSV file per search term and location.

Each script does the same four things for every search term:

1. It builds a search URL and walks the result pages.
2. It turns every listing card on a page into a record.
3. It works out a posting date from the card's age text ("3d ago", "5h ago").
4. It drops the records whose url repeats, then hands the rest to its sink.

This project models those steps in Dafny and proves what they guarantee. The modules follow the scripts' functions:

| module | models |
|---|---|
| `Text` | the Python string operations the scripts use: `replace`, `lower`, `strip`/`rstrip`, `split('?')[0]`, `join`, `filter(str.isdigit, …)` |
| `Numerals` | `int()` of a digit string, `str()` of a number, zero-padded `strftime` fields |
| `Dates` | the proleptic Gregorian calendar of `datetime.date`: `toordinal`, subtracting days, the two `strftime` layouts and reading them back |
| `PostDates` | `calculate_post_date`, in both layouts: `%Y-%m-%d` and `%d/%m/%Y` |
| `Records` | the record dict and the nine-column data-frame row |
| `Listings` | `parse_job_listings`, over listing cards already located in the page |
| `Crawl` | `scrape_job_title`: base URL, page URLs, the page loop, with the page fetch passed in |
| `Dedup` | `drop_duplicates(subset=['url'], keep='first')` |
| `Naming` | the table name and the CSV file name |
| `Sink` | the MySQL table as a class, with `CREATE TABLE IF NOT EXISTS` and `INSERT … ON DUPLICATE KEY UPDATE` run through `executemany` |
| `Pipeline` | the per-term body of each main loop |

Two details are modelled exactly as written:

- The hour test `'h' in posting_age.lower()` matches any 'h' or 'H' anywhere in the text. An age such as "1 month ago" therefore counts as hours and gets today's date.
- The day count is made of all the digits in the text, wherever they stand.

Where the code loops or updates state, the model does the same with a Dafny `method`:

- `parse_job_listings` and its description loop;
- the URL building and the page loop of `scrape_job_title`;
- the table, updated row by row by `executemany`.

Each such method is proved equal to a specification function, and the properties are proved about that function.

## Model

| member | source | states |
|---|---|---|
| Text.ReplaceChar | seekMysql.py:135 | `str.replace` of one character: same length; each position holds the replacement where the input had the old character and the input character otherwise |
| Text.Lower | seekMysql.py:124 | `str.lower` on ASCII: same length, each character lowered |
| Text.LowerHasNoUpper | seekMysql.py:251 | a lowered string has no ASCII capital |
| Text.InLowerIffEitherCase | seekMysql.py:124 | a small letter is in the lowered text exactly when it or its capital is in the original |
| Text.StripLeft | seekMysql.py:65 | `lstrip`: the result is a suffix, everything removed is in the strip set, and the result does not start with a member of the set |
| Text.StripRight | seekMysql.py:151 | `rstrip`: the result is a prefix, everything removed is in the strip set, and the result does not end with a member of the set |
| Text.StripShape | seekMysql.py:65 | `strip`: the result is a contiguous slice, both removed ends consist of set members, and neither end of the result is a set member |
| Text.StripLeftSkips | seekMysql.py:65 | a leading run of set members followed by a non-member is removed exactly |
| Text.StripRightSkips | seekMysql.py:151 | a trailing run of set members preceded by a non-member is removed exactly |
| Text.StripCharacterised | seekMysql.py:65 | `strip` of padding + text + padding is the text, when the text has no set member at either end |
| Text.StripIdempotent | seekMysql.py:82 | stripping twice equals stripping once |
| Text.BeforeFirst | seekMysql.py:109 | `split(c)[0]`: the longest prefix without `c`, and when something was cut, the cut starts at a `c` |
| Text.BeforeFirstAfterPrefix | seekMysql.py:108-109 | a prefix without `c` passes through `split(c)[0]` unchanged |
| Text.BeforeFirstNoOccurrence | seekMysql.py:109 | `split(c)[0]` leaves the string whole exactly when it has no `c` |
| Text.Join | seekMysql.py:103 | `sep.join`: empty for no parts, the part itself for one part |
| Text.JoinSplit | seekMysql.py:103 | joining is splittable at any inner index, with one separator between the halves |
| Text.JoinEmpty | seekMysql.py:103 | with a non-empty separator, the join is empty exactly when there are no parts or one empty part |
| Text.DigitChars | seekMysql.py:122 | `''.join(filter(str.isdigit, s))`: only digits, and every digit of the input, no other character |
| Text.DigitCharsEmpty | seekMysql.py:122-123 | the digit string is empty exactly when the input has no digit |
| Text.DigitCharsConcat | seekMysql.py:122 | filtering distributes over concatenation |
| Numerals.Value | seekMysql.py:127 | `int()` of n digits is below 10^n |
| Numerals.Fixed | seekMysql.py:129 | a zero-padded `strftime` field has exactly the width and only digits |
| Numerals.Decimal | seekMysql.py:159 | `str()` of a number is digits without a leading zero |
| Numerals.FixedRoundTrip | seekMysql.py:129 | reading a zero-padded field back gives the number |
| Numerals.DecimalRoundTrip | seekMysql.py:159 | reading `str(n)` back gives `n` |
| Dates.DaysBeforeYearClosedForm | seekMysql.py:128 | the days before a year agree with the closed form `datetime` uses |
| Dates.Ordinal | seekMysql.py:128 | a valid date has ordinal at least 1 (day 1 is 0001-01-01) |
| Dates.PrevDay | seekMysql.py:128 | the previous day is a valid date whose ordinal is one less |
| Dates.MinusDays | seekMysql.py:128 | `date - timedelta(days=n)` for n below the ordinal is a valid date whose ordinal is n less |
| Dates.OrdinalWithinYear | seekMysql.py:128 | a date's ordinal lies inside its own year's range |
| Dates.MonthsIncrease | seekMysql.py:128 | earlier months end before later months start |
| Dates.YearsIncrease | seekMysql.py:128 | earlier years end before later years start |
| Dates.OrdinalInjective | seekMysql.py:128 | two valid dates with the same ordinal are equal |
| Dates.IsoFormat | seekMysql.py:129 | `%Y-%m-%d` is ten characters |
| Dates.DayFirstFormat | seekscraping.py:107 | `%d/%m/%Y` is ten characters |
| Dates.IsoRoundTrip | seekMysql.py:129 | parsing `%Y-%m-%d` text gives the date back |
| Dates.DayFirstRoundTrip | seekscraping.py:107 | parsing `%d/%m/%Y` text gives the date back |
| PostDates.PostDate | seekMysql.py:117-131 | "N/A", digit-free or hour ages give today; otherwise the date is exactly the digits' value in days earlier, and the OverflowError happens exactly when that would fall before year 1; a result is never after today |
| PostDates.CalculatePostDate | seekMysql.py:117-131 | a missing, digit-free or hour age gives today in the chosen layout; the call fails exactly when the age has a day count that reaches back before year 1 |
| PostDates.CalculatePostDateMeaning | seekMysql.py:117-131 | in either layout (this one and seekscraping.py:95-109), the returned text fails exactly in the overflow case and otherwise parses back to today minus the day count |
| PostDates.HourMarkerEitherCase | seekMysql.py:124 | the hour test fires on an 'h' or an 'H' anywhere in the age |
| PostDates.MissingIsToday | seekMysql.py:119-120 | "N/A" gives today |
| PostDates.ThreeDays | seekMysql.py:127-129 | "3d" gives the date three days earlier |
| PostDates.FiveHours | seekMysql.py:124-125 | "5h" gives today |
| PostDates.EmptyAge | seekMysql.py:130-131 | an age without digits gives today |
| PostDates.TwelveDaysAgo | seekMysql.py:122-129 | "12 days ago" gives the date twelve days earlier |
| PostDates.TwelveDigits | seekMysql.py:122 | the digits of "12 days ago" are "12", read as 12 |
| PostDates.DigitsAnywhere | seekMysql.py:122 | the day count is read from all digits of the age joined together, wherever they stand |
| Records.ToRow | seekMysql.py:240-248 | the row keeps the record's url and age and carries the computed post date |
| Listings.CollectDescription | seekMysql.py:91-101 | the description loop collects the stripped text of each bullet span that exists, then the summary |
| Listings.ParseArticle | seekMysql.py:60-113 | the field-by-field dict building equals the record specification |
| Listings.ExtractAllAt | seekMysql.py:60-113 | record i of `ExtractAll` is `ExtractJob` of card i alone |
| Listings.ParseJobListings | seekMysql.py:54-115 | the card loop returns one record per card, in document order |
| Listings.FieldIsolation | seekMysql.py:63-88 | each field, title and classification included, is "N/A" exactly when its element is missing or its stripped text is "N/A"; each field depends only on its own element |
| Listings.PresentFieldIsTrimmedText | seekMysql.py:65 | a present element's field is its text without surrounding whitespace |
| Listings.ClassificationHasNoOuterParens | seekMysql.py:82 | a classification neither starts nor ends with a parenthesis, and is the trimmed text with only parentheses cut from each end |
| Listings.ClassificationUnwrapped | seekMysql.py:81-84 | "(Information Technology)" style text yields the inner text |
| Listings.CanonicalUrlProperties | seekMysql.py:106-109 | `CanonicalUrl` starts with the site origin, has no '?', is a prefix of origin + link, and is all of it exactly when the link has no '?' |
| Listings.CanonicalUrlExample | seekMysql.py:108-109 | "/job/123?ref=abc" becomes "https://www.seek.com.au/job/123" |
| Listings.MysqlUrlField | seekMysql.py:105-111 | `UrlField` in the MySQL variant always sets the url: the canonical link, or "N/A" without a link |
| Listings.CsvUrlField | seekscraping.py:84-89 | `UrlField` in the CSV variant is "N/A" exactly when there is a link, and is unset exactly when there is none |
| Listings.VariantsDifferOnlyInUrl | seekscraping.py:39-91 | the two scripts build the same record except for the url |
| Listings.FragmentsConcat | seekMysql.py:93-96 | the bullet loop over two runs of items is the concatenation of the two |
| Listings.FragmentAt | seekMysql.py:93-96 | a bullet with a text span contributes its stripped text at its place |
| Listings.NoSpansNoFragments | seekMysql.py:93-96 | no fragment is collected exactly when no bullet has a text span |
| Listings.ShortDescriptionLayout | seekMysql.py:90-103 | the description is the fragments, then the summary, joined by " \| " |
| Crawl.BuildBaseUrl | seekMysql.py:134-151 | the step-by-step base URL equals its specification |
| Crawl.BaseUrl | seekMysql.py:144-151 | `rstrip('&?')` of the assembled URL: a prefix of it that does not end in '&' or '?', with only '&' and '?' cut off |
| Crawl.ScrapeJobTitle | seekMysql.py:133-174 | the page loop returns the concatenation, in page order, of the records of pages 1..N; a failed page contributes nothing |
| Crawl.FetchPages | seekMysql.py:155-174 | the loop over pages 1..N builds exactly the page-ordered concatenation of what each page contributes |
| Crawl.FetchPage | seekMysql.py:159-166 | one page contributes its parsed records when the fetch came back, and nothing otherwise |
| Crawl.BaseUrlWithoutSalary | seekMysql.py:139-151 | without a salary filter the base URL is the search path with trailing '&'/'?' removed, and has no query |
| Crawl.NoQuestionInPath | seekMysql.py:135-141 | the search path has no '?' when neither term nor location has one |
| Crawl.StripRightAppend | seekMysql.py:144-151 | `rstrip('&?')` removes an appended run of '&' and '?' completely |
| Crawl.BaseUrlWithSalary | seekMysql.py:147-151 | with both salary settings the base URL is the path, '?', and the two parameters without the trailing '&' |
| Crawl.PageUrlShape | seekMysql.py:159 | `PageUrl` is the base URL, the right separator, "page=" and the page number, which reads back as the page |
| Crawl.CrawlPrefix | seekMysql.py:158-166 | in `Crawled`, the records of the first k pages are a prefix of those of the first n |
| Crawl.CrawlPageSlice | seekMysql.py:158-166 | in `Crawled`, page k's records sit exactly between those of the pages before and after it |
| Crawl.CrawlOrigin | seekMysql.py:158-166 | every record in `Crawled` comes from some page 1..N |
| Crawl.CrawlAllFailed | seekMysql.py:162-169 | if every fetch fails the result is empty |
| Crawl.SecondPageFails | seekMysql.py:162-169 | a failed second page leaves just the first page's records |
| Dedup.FirstIndexIsFirst | seekMysql.py:243 | no earlier row has the url of the first occurrence |
| Dedup.DropDuplicates | seekMysql.py:243 | every url value survives, each kept row is the first row with its url, and kept rows keep the order of first occurrence |
| Dedup.KeptUrlsDistinct | seekMysql.py:243 | no two kept rows share a url |
| Dedup.DistinctUrlsKeepAll | seekMysql.py:243 | rows with pairwise distinct urls are all kept, unchanged |
| Dedup.KeptCountIsDistinctUrls | seekMysql.py:243 | the number of kept rows is the number of distinct url values |
| Dedup.FewUrlValues | seekMysql.py:243 | rows whose urls come from k values keep at most k rows |
| Naming.TableName | seekMysql.py:251 | the table name is the term's length plus "_jobs", ends in "_jobs", and has no space and no ASCII capital where the term stood |
| Naming.TableNameShape | seekMysql.py:251 | each character of the term becomes '_' if it is a space and its small letter otherwise; the whole name has no space and no ASCII capital |
| Naming.TableNamesCollide | seekMysql.py:251 | two terms share a table exactly when they agree after those two rewrites |
| Naming.TableNameExample | seekMysql.py:251 | "Data Analyst" gives "data_analyst_jobs" |
| Naming.CsvFileName | seekscraping.py:174 | the file name ends in "_jobs.csv", has an '_' right after the term, and has the length of term, '_', location and suffix |
| Naming.CsvFileNameShape | seekscraping.py:174 | the file name is the term and the location with spaces as '_', joined by '_', then "_jobs.csv"; no space |
| Naming.CsvFileNameExample | seekscraping.py:174 | "Data Analyst" in "Sydney NSW 2000" gives "Data_Analyst_Sydney_NSW_2000_jobs.csv" |
| Naming.CsvFileNamesCollide | seekscraping.py:174 | "Data Analyst" and "Data_Analyst" write the same file |
| Sink.Upsert | seekMysql.py:209-217 | the keys gain the row's url; the row count grows by one unless the url was already stored; the counter never goes back |
| Sink.UpsertPreservesValid | seekMysql.py:188-196 | an upsert keeps rows filed under their own url and ids positive, below the counter and distinct |
| Sink.EmptyWellFormed | seekMysql.py:187-200 | a freshly created table meets the table's guarantees |
| Sink.UpsertNewUrl | seekMysql.py:209-212 | a new url adds exactly one row, under the next id, and touches no other row |
| Sink.UpsertExistingUrl | seekMysql.py:213-217 | a stored url keeps the count, the counter, the id and the url, takes every other column from the new row, and no other row changes |
| Sink.UpsertNullUrl | seekMysql.py:196 | a NULL url never matches the UNIQUE index, so the row is added |
| Sink.UpsertAll | seekMysql.py:219 | after `executemany` the stored urls are the old ones plus the batch's |
| Sink.UpsertAllPreservesValid | seekMysql.py:219 | a batch keeps the table's guarantees |
| Sink.LastRowWins | seekMysql.py:219 | each url of the batch ends up holding the batch's last row for it |
| Sink.IdsKept | seekMysql.py:213-219 | a url stored before the batch keeps its id |
| Sink.OthersUntouched | seekMysql.py:219 | a stored url that the batch does not carry keeps its whole row |
| Sink.NullRowsAppended | seekMysql.py:219 | the batch's NULL-url rows are appended, in order, after the old ones |
| Sink.RefreshStored | seekMysql.py:219 | a batch of already-stored urls only rewrites those rows, keeping ids and counter |
| Sink.BatchTwice | seekMysql.py:219 | sending the same batch of rows that all have a url twice gives the same table as sending it once |
| Sink.JobTable.constructor | seekMysql.py:187-200 | a new table is empty, its ids start at 1, and it meets the table's guarantees |
| Sink.JobTable.Insert | seekMysql.py:209-217 | one execution of the statement updates the table as the upsert specifies and keeps the table's guarantees |
| Sink.JobTable.InsertMany | seekMysql.py:219 | the row-by-row loop leaves the table as the batch specification says and keeps the table's guarantees |
| Sink.Database.CreateTable | seekMysql.py:184-204 | the statement succeeds exactly when the name is an unquoted identifier the server accepts; then a missing table is made empty and an existing one is left alone; on failure nothing changes; other tables stay, every table keeps its guarantees |
| Sink.Database.AddTable | seekMysql.py:188-201 | a missing table with an accepted name is added fresh and empty, without touching the others |
| Sink.Database.InsertData | seekMysql.py:206-223 | the batch goes into the named table; without that table nothing changes and the call reports failure; other tables are unchanged |
| Pipeline.WithPostDates | seekMysql.py:240 | the column is computed exactly when every age yields a date, one row per record with that record's date |
| Pipeline.Prepare | seekMysql.py:240-248 | a date error comes first; then a frame without any url fails; otherwise the rows are `drop_duplicates` of the dated rows, in first-occurrence order |
| Pipeline.RowUrls | seekMysql.py:240 | the url values of the rows are those of the records |
| Pipeline.PreparedUrls | seekMysql.py:243 | the rows reaching the sink have pairwise distinct urls, and every url value of the records is among them |
| Pipeline.PreparedRowOrigin | seekMysql.py:243 | each row reaching the sink is the first record with its url, with that record's date |
| Pipeline.Store | seekMysql.py:254-258 | the two statements succeed exactly when the server accepts the name; then the table exists and holds the old rows (or none) upserted with the batch; otherwise nothing changes; no other table changes |
| Pipeline.SaveToDatabase | seekMysql.py:236-258 | an empty scrape does nothing; a preparation error, or a `<term>_jobs` name the server rejects, leaves every table unchanged; otherwise `<term>_jobs` holds its old content upserted with the prepared rows |
| Pipeline.PlusRejected | seekMysql.py:251-255 | a term containing '+' gives a table name the server rejects |
| Pipeline.TableNamesAcceptedOrRejected | seekMysql.py:251-255 | "Data Analyst" gives an accepted table name, "C++ Developer" a rejected one |
| Pipeline.SaveToCsv | seekscraping.py:160-175 | an empty scrape writes nothing; the prepared rows go to the term-and-location file exactly when preparation succeeds, and the preparation error stops the run otherwise |
| Pipeline.MysqlUrls | seekMysql.py:106-111 | every record seekMysql.py builds has a url |
| Pipeline.KeyedBatch | seekMysql.py:243 | a batch whose records all have urls never lacks the url column, and all its rows have urls |
| Pipeline.RescrapeChangesNothing | seekMysql.py:209-219 | storing the same scrape twice leaves the table as storing it once |
| Pipeline.CsvUrls | seekscraping.py:84-89 | every seekscraping.py record has url "N/A" or none |
| Pipeline.CsvDedupCollapses | seekscraping.py:89 | as written, the CSV keeps at most two rows, one "N/A" and one without url, however many listings were scraped |
| Pipeline.AtMostTwoRows | seekscraping.py:167 | distinct-url rows drawn from records with urls "N/A" or none number at most two |
| Pipeline.TwoListingsOneRow | seekscraping.py:84-89 | two linked listings, whatever their links, leave one CSV row |
| Pipeline.OneUrl | seekscraping.py:167 | two records that both carry url "N/A" leave one row |
| Pipeline.CanonicalUrlsKeepListings | seekMysql.py:106-111 | with the canonical url kept, listings whose links lead to distinct pages all survive duplicate removal |

## Findings

| source | as written | input that shows it | evidently intended | confidence | as-written member | corrected member |
|---|---|---|---|---|---|---|
| seekscraping.py:89 | the line after the url is computed sets `job['url'] = 'N/A'` unconditionally, so every linked record has url "N/A" | two cards with title links `/job/1` and `/job/2`: after `drop_duplicates` on url only the first remains | keep the canonical url, as seekMysql.py:107-111 does, with "N/A" only when there is no link | not executed | Pipeline.CsvDedupCollapses | Pipeline.CanonicalUrlsKeepListings |

The corrected url rule is the one the MySQL variant of `Listings.UrlField` follows, and the MySQL pipeline uses it. `Pipeline.TwoListingsOneRow` is the two-card counterexample for the code as written.

## Left out

- The network: `get_html`, its headers, `raise_for_status` and its error printing. A page fetch is a function parameter. A fetch that fails, or returns an empty body, is `None`. `time.sleep` is left out.
- HTML parsing: BeautifulSoup's `find`/`find_all` by class and `data-automation` attribute, and `.text`. A card is an abstract `Article` that holds, for each element, its text or nothing.
- A title link without an `href` would raise a KeyError in the source. The model assumes every link has one.
- `datetime.date.today()` is a parameter. The clock is not modelled.
- Dates.DayFirstFormat: pads the year to four digits; `strftime('%Y')` prints years below 1000 without padding, as for the ISO layout below.
- Dates.IsoFormat: pads the year to four digits. The C library `strftime('%Y')` prints years below 1000 without padding. Only an age of more than about 375,000 days reaches such years.
- Text.DigitChars: only the ASCII digits '0'-'9' count. Python's `str.isdigit` also accepts other Unicode digits, for which `int()` behaves differently.
- Text.Lower: lowers only ASCII capitals. Python's `str.lower` lowers all Unicode capitals. The 'h' test and the table name depend on it.
- Naming.TableName: a term with a non-ASCII capital keeps it in the model, where Python lowers it ("Ärzte" gives "ärzte_jobs").
- Pipeline.SaveToDatabase, Pipeline.SaveToCsv: model one pass of each main loop, not the loop over `JOB_TITLES`.
  - An error stops the whole run in the source (the exception propagates), and the MySQL script then closes the connection in `finally`.
  - `df.to_csv` writing the file is left out.
  - The progress prints and `df.head()` are left out.
- pymysql is not modelled: connecting, `commit`, `close`, `cursor.rowcount` and printing errors. `InsertData` reports a missing table through its result. Other server errors (lost connection, strict-mode failures) are not modelled.
- Sink.Upsert: compares urls as exact strings. The UNIQUE index compares them under the server's default collation, which ignores letter case, so two urls differing only in case would share a row there.
- Sink.Upsert: advances the AUTO_INCREMENT counter only when a row is added. InnoDB may also use up an id on a duplicate-key update, which leaves gaps. The 32-bit `INT` limit on ids is not modelled.
- Sink.PlainIdentifier: approximates MySQL's unquoted identifier rule. Reserved words are not checked (no name ending in `_jobs` is one), nor are names such as `1e5_jobs` that the parser could read as a number; a name with '.' would address another database, and the model treats it as rejected.
- Sink.Database.CreateTable: a rejected name is the only server error modelled; terms such as "Front-End Developer" or "C++ Developer" give such names.
- Pipeline.SaveToDatabase: for a rejected table name the source prints two errors and goes on to the next term; the model returns `Rejected` with the database unchanged.
- Sink.JobTable: stores every column as text. The `VARCHAR(255)` limits and the conversion of `post_date` into a `DATE` are not modelled.
- Crawl.ScrapeJobTitle: takes `LOCATION`, `SALARY_RANGE`, `SALARY_TYPE` and `PAGES_TO_SEARCH` as parameters instead of module constants.
