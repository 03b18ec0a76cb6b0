/** The records that flow through the pipeline. */
module Records {
  import opened Wrappers

  /** One dict that `parse_job_listings` appends to `job_listings`. Every
      key is always set except `url`, which seekscraping.py leaves unset
      when a listing has no title link: `None` stands for that missing key,
      which the data frame then holds as NaN. */
  datatype Job = Job(
    title: string,
    company: string,
    location: string,
    salary: string,
    classification: string,
    postingAge: string,
    shortDescription: string,
    url: Option<string>)

  /** One row of the data frame once `post_date` is added and the columns
      are put in the fixed order `title, company, location, salary,
      classification, short_description, url, posting_age, post_date`. */
  datatype Row = Row(
    title: string,
    company: string,
    location: string,
    salary: string,
    classification: string,
    shortDescription: string,
    url: Option<string>,
    postingAge: string,
    postDate: string)

  function ToRow(j: Job, postDate: string): (r: Row)
    ensures r.url == j.url && r.postingAge == j.postingAge && r.postDate == postDate
  {
    Row(j.title, j.company, j.location, j.salary, j.classification,
        j.shortDescription, j.url, j.postingAge, postDate)
  }
}
