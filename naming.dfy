/** The per-term names of the two sinks: the MySQL table and the CSV file. */
module Naming {
  import opened Text

  const TableSuffix := "_jobs"
  const CsvSuffix := "_jobs.csv"

  /** `f"{job_title.replace(' ', '_').lower()}_jobs"`. */
  function TableName(term: string): (t: string)
    ensures |t| == |term| + |TableSuffix| && t[|term|..] == TableSuffix
    ensures forall i :: 0 <= i < |term| ==> t[i] != ' ' && !IsUpper(t[i])
  {
    Lower(ReplaceChar(term, ' ', '_')) + TableSuffix
  }

  /** `f'{job_title.replace(" ", "_")}_{LOCATION.replace(" ", "_")}_jobs.csv'`. */
  function CsvFileName(term: string, location: string): (f: string)
    ensures |f| == |term| + 1 + |location| + |CsvSuffix|
    ensures f[|f| - |CsvSuffix|..] == CsvSuffix && f[|term|] == '_'
  {
    ReplaceChar(term, ' ', '_') + "_" + ReplaceChar(location, ' ', '_') + CsvSuffix
  }

  /** The table name: the term, each space turned into '_' and each ASCII
      capital into its small letter, then "_jobs"; it has no space and no
      capital. */
  lemma TableNameShape(term: string)
    ensures var t := TableName(term);
      && (forall i :: 0 <= i < |term| ==>
            t[i] == (if term[i] == ' ' then '_' else LowerChar(term[i])))
      && (forall i :: 0 <= i < |t| ==> t[i] != ' ' && !IsUpper(t[i]))
  {
    var t := TableName(term);
    var r := ReplaceChar(term, ' ', '_');
    assert t == Lower(r) + TableSuffix;
    forall i | 0 <= i < |term|
      ensures t[i] == (if term[i] == ' ' then '_' else LowerChar(term[i]))
    {
      assert t[i] == Lower(r)[i] == LowerChar(r[i]);
    }
    forall i | |term| <= i < |t|
      ensures t[i] != ' ' && !IsUpper(t[i])
    {
      assert t[i] == TableSuffix[i - |term|];
    }
  }

  /** Two terms share a table exactly when they agree once spaces become
      '_' and case is ignored, so "Data Analyst", "data analyst" and
      "Data_Analyst" write into one table. */
  lemma TableNamesCollide(a: string, b: string)
    ensures TableName(a) == TableName(b) <==>
      Lower(ReplaceChar(a, ' ', '_')) == Lower(ReplaceChar(b, ' ', '_'))
  {
    var x, y := Lower(ReplaceChar(a, ' ', '_')), Lower(ReplaceChar(b, ' ', '_'));
    if TableName(a) == TableName(b) {
      assert |x| == |y|;
      assert x == TableName(a)[..|x|] && y == TableName(b)[..|y|];
    }
  }

  lemma TableNameExample()
    ensures TableName("Data Analyst") == "data_analyst_jobs"
  {
    TableNameShape("Data Analyst");
  }

  /** The file name: term and location with spaces turned into '_', joined
      by '_', then "_jobs.csv"; it has no space. */
  lemma CsvFileNameShape(term: string, location: string)
    ensures var f := CsvFileName(term, location);
      && |f| == |term| + 1 + |location| + |CsvSuffix|
      && f[|f| - |CsvSuffix|..] == CsvSuffix
      && f[|term|] == '_'
      && (forall i :: 0 <= i < |term| ==> f[i] == (if term[i] == ' ' then '_' else term[i]))
      && (forall i :: 0 <= i < |location| ==>
            f[|term| + 1 + i] == (if location[i] == ' ' then '_' else location[i]))
      && (forall i :: 0 <= i < |f| ==> f[i] != ' ')
  {
    var f := CsvFileName(term, location);
    assert forall i :: |f| - |CsvSuffix| <= i < |f| ==> f[i] == CsvSuffix[i - (|f| - |CsvSuffix|)];
  }

  lemma CsvFileNameExample()
    ensures CsvFileName("Data Analyst", "Sydney NSW 2000") == "Data_Analyst_Sydney_NSW_2000_jobs.csv"
  {
    TermWithUnderscores();
    LocationWithUnderscores();
  }

  lemma TermWithUnderscores()
    ensures ReplaceChar("Data Analyst", ' ', '_') == "Data_Analyst"
  {
  }

  lemma LocationWithUnderscores()
    ensures ReplaceChar("Sydney NSW 2000", ' ', '_') == "Sydney_NSW_2000"
  {
  }

  /** Names can collide: a term with a space and the same term with '_'
      there name the same file, so the second run overwrites the first. */
  lemma CsvFileNamesCollide(location: string)
    ensures CsvFileName("Data Analyst", location) == CsvFileName("Data_Analyst", location)
  {
    assert ReplaceChar("Data Analyst", ' ', '_') == ReplaceChar("Data_Analyst", ' ', '_');
  }
}
