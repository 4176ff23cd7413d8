/**
 * ResultsController (src/Controllers/ResultsController.cs): the paginated
 * results page, the CSV export with its field escaping, and the deletion of a
 * single result. Every action looks the row up first (NotFound), then the
 * current user (Unauthorized), then applies the owner-or-admin rule (Forbid).
 */
module ResultsController {
  import opened Common
  import opened Schema
  import opened Access
  import opened Store

  // ---------------------------------------------------------------------------
  // EscapeCsvField
  // ---------------------------------------------------------------------------

  /** The chain of four Replace calls, in the order the source applies them. */
  function ReplaceChain(s: string): string {
    ReplaceChar(ReplaceChar(ReplaceChar(ReplaceChar(s, '"', "\"\""), '\n', " "), '\r', " "), '\t', " ")
  }

  /** EscapeCsvField: null or empty gives the empty string, anything else goes through the chain. */
  function EscapeCsvField(field: string): (r: string)
    ensures field == [] ==> r == []
  {
    if field == [] then [] else ReplaceChain(field)
  }

  /** What the chain does to a single character. */
  function EscapeChar(c: char): string {
    if c == '"' then "\"\""
    else if c == '\n' || c == '\r' || c == '\t' then " "
    else [c]
  }

  /** The one-pass reference: each character escaped on its own. */
  function EscapeEach(s: string): string {
    if s == [] then [] else EscapeChar(s[0]) + EscapeEach(s[1..])
  }

  lemma ReplaceCharSingle(c: char, d: char, r: string)
    ensures ReplaceChar([c], d, r) == if c == d then r else [c]
  {
    assert [c][1..] == [];
  }

  /** A doubled quote survives the later passes, which replace other characters. */
  lemma ReplaceCharQuotes(d: char, r: string)
    requires d != '"'
    ensures ReplaceChar("\"\"", d, r) == "\"\""
  {
    assert "\"\"" == ['"'] + ['"'];
    ReplaceCharAppend(['"'], ['"'], d, r);
    ReplaceCharSingle('"', d, r);
  }

  lemma ReplaceChainChar(c: char)
    ensures ReplaceChain([c]) == EscapeChar(c)
  {
    ReplaceCharSingle(c, '"', "\"\"");
    if c == '"' {
      ReplaceCharQuotes('\n', " ");
      ReplaceCharQuotes('\r', " ");
      ReplaceCharQuotes('\t', " ");
    } else {
      ReplaceCharSingle(c, '\n', " ");
      ReplaceCharSingle(if c == '\n' then ' ' else c, '\r', " ");
      ReplaceCharSingle(if c == '\n' || c == '\r' then ' ' else c, '\t', " ");
    }
  }

  lemma ReplaceChainAppend(a: string, b: string)
    ensures ReplaceChain(a + b) == ReplaceChain(a) + ReplaceChain(b)
  {
    var a1, b1 := ReplaceChar(a, '"', "\"\""), ReplaceChar(b, '"', "\"\"");
    ReplaceCharAppend(a, b, '"', "\"\"");
    var a2, b2 := ReplaceChar(a1, '\n', " "), ReplaceChar(b1, '\n', " ");
    ReplaceCharAppend(a1, b1, '\n', " ");
    var a3, b3 := ReplaceChar(a2, '\r', " "), ReplaceChar(b2, '\r', " ");
    ReplaceCharAppend(a2, b2, '\r', " ");
    ReplaceCharAppend(a3, b3, '\t', " ");
  }

  /**
   * The four passes over the whole string give the same result as escaping each
   * character once: no later Replace can touch what an earlier one produced.
   */
  lemma {:induction false} EscapeCsvFieldOnePass(field: string)
    ensures EscapeCsvField(field) == EscapeEach(field)
  {
    if field != [] {
      assert field == [field[0]] + field[1..];
      ReplaceChainAppend([field[0]], field[1..]);
      ReplaceChainChar(field[0]);
      EscapeCsvFieldOnePass(field[1..]);
      if field[1..] == [] {
        assert ReplaceChain([]) == [];
      }
    }
  }

  lemma {:induction false} EscapeEachAppend(a: string, b: string)
    ensures EscapeEach(a + b) == EscapeEach(a) + EscapeEach(b)
  {
    if a == [] {
      assert a + b == b;
    } else {
      assert (a + b)[0] == a[0];
      assert (a + b)[1..] == a[1..] + b;
      EscapeEachAppend(a[1..], b);
    }
  }

  lemma {:induction false} EscapeEachNoBreaks(s: string)
    ensures var r := EscapeEach(s); '\n' !in r && '\r' !in r && '\t' !in r
  {
    if s != [] {
      EscapeEachNoBreaks(s[1..]);
    }
  }

  /** The escaped field contains no line feed, carriage return or tab. */
  lemma EscapeRemovesBreaks(field: string)
    ensures var r := EscapeCsvField(field); '\n' !in r && '\r' !in r && '\t' !in r
  {
    EscapeCsvFieldOnePass(field);
    EscapeEachNoBreaks(field);
  }

  lemma {:induction false} EscapeEachLength(s: string)
    ensures |EscapeEach(s)| == |s| + CountChar(s, '"')
    ensures CountChar(EscapeEach(s), '"') == 2 * CountChar(s, '"')
  {
    if s != [] {
      EscapeEachLength(s[1..]);
      CountCharAppend(EscapeChar(s[0]), EscapeEach(s[1..]), '"');
    }
  }

  /** Every quote is doubled and nothing else changes length: the output grows by the number of quotes. */
  lemma EscapeLength(field: string)
    ensures |EscapeCsvField(field)| == |field| + CountChar(field, '"')
    ensures CountChar(EscapeCsvField(field), '"') == 2 * CountChar(field, '"')
  {
    EscapeCsvFieldOnePass(field);
    EscapeEachLength(field);
  }

  /** The characters the escaping touches. */
  predicate IsCsvSpecial(c: char) {
    c == '"' || c == '\n' || c == '\r' || c == '\t'
  }

  lemma {:induction false} EscapeEachPlain(s: string)
    requires forall i :: 0 <= i < |s| ==> !IsCsvSpecial(s[i])
    ensures EscapeEach(s) == s
  {
    if s != [] {
      EscapeEachPlain(s[1..]);
      assert s == [s[0]] + s[1..];
    }
  }

  /** A field is returned unchanged exactly when it holds none of the four special characters. */
  lemma EscapeUnchangedIffPlain(field: string)
    ensures EscapeCsvField(field) == field <==> forall i :: 0 <= i < |field| ==> !IsCsvSpecial(field[i])
  {
    EscapeCsvFieldOnePass(field);
    if forall i :: 0 <= i < |field| ==> !IsCsvSpecial(field[i]) {
      EscapeEachPlain(field);
    }
    if EscapeCsvField(field) == field {
      EscapeLength(field);
      EscapeRemovesBreaks(field);
      assert CountChar(field, '"') == 0;
      forall i | 0 <= i < |field| ensures !IsCsvSpecial(field[i]) {
        assert field[i] in field;
      }
    }
  }

  /** Reading a quoted field back: each "" becomes ", scanning left to right (Replace("\"\"", "\"")). */
  function Unescape(s: string): string {
    if s == [] then []
    else if |s| >= 2 && s[0] == '"' && s[1] == '"' then "\"" + Unescape(s[2..])
    else [s[0]] + Unescape(s[1..])
  }

  /** The input with line feeds, carriage returns and tabs turned into spaces. */
  function Blanked(s: string): string {
    if s == [] then []
    else (if s[0] == '\n' || s[0] == '\r' || s[0] == '\t' then " " else [s[0]]) + Blanked(s[1..])
  }

  lemma {:induction false} UnescapeEach(s: string)
    ensures Unescape(EscapeEach(s)) == Blanked(s)
  {
    if s != [] {
      var rest := EscapeEach(s[1..]);
      UnescapeEach(s[1..]);
      if s[0] == '"' {
        assert EscapeEach(s) == "\"\"" + rest;
        assert EscapeEach(s)[2..] == rest;
      } else {
        var e := EscapeChar(s[0]);
        assert |e| == 1 && e[0] != '"';
        assert EscapeEach(s) == e + rest;
        assert EscapeEach(s)[1..] == rest;
      }
    }
  }

  /**
   * Escaping loses only the line breaks and tabs: undoing the quote doubling
   * gives back the input with those turned into spaces.
   */
  lemma EscapeRoundTrip(field: string)
    ensures Unescape(EscapeCsvField(field)) == Blanked(field)
  {
    EscapeCsvFieldOnePass(field);
    UnescapeEach(field);
  }

  // ---------------------------------------------------------------------------
  // ExportCsv
  // ---------------------------------------------------------------------------

  /** The header line, written here piece by piece; together it reads "ExtractedText","ScrapedAt","JobUrl","CssSelector","JobId". */
  const CsvHeader: string := "\"ExtractedText\"," + "\"ScrapedAt\"," + "\"JobUrl\"," + "\"CssSelector\"," + "\"JobId\""

  /**
   * One data line: the three escaped fields and the timestamp quoted, the job
   * id unquoted. `stamp` renders a DateTime with the round-trip "O" format.
   */
  function CsvLine(job: ScrapingJob<string>, r: ScrapingResult, stamp: Time -> string): string {
    "\"" + EscapeCsvField(r.extractedText) + "\",\"" + stamp(r.scrapedAt) + "\",\""
    + EscapeCsvField(job.targetUrl) + "\",\"" + EscapeCsvField(job.cssSelector) + "\"," + IntToString(job.jobId)
  }

  /** The text of the StringBuilder after AppendLine of the header and then of each result's line; `eol` is Environment.NewLine. */
  function CsvDocument(job: ScrapingJob<string>, results: seq<ScrapingResult>, stamp: Time -> string, eol: string): string {
    if results == [] then CsvHeader + eol
    else CsvDocument(job, results[..|results| - 1], stamp, eol) + CsvLine(job, results[|results| - 1], stamp) + eol
  }

  /** A data line holds no line feed, provided the timestamp format writes none. */
  lemma CsvLineNoBreak(job: ScrapingJob<string>, r: ScrapingResult, stamp: Time -> string)
    requires '\n' !in stamp(r.scrapedAt)
    ensures CountChar(CsvLine(job, r, stamp), '\n') == 0
  {
    EscapeRemovesBreaks(r.extractedText);
    EscapeRemovesBreaks(job.targetUrl);
    EscapeRemovesBreaks(job.cssSelector);
    var digits := IntToString(job.jobId);
    assert forall i :: 0 <= i < |digits| ==> digits[i] != '\n';
    var a := "\"" + EscapeCsvField(r.extractedText) + "\",\"";
    var b := a + stamp(r.scrapedAt) + "\",\"";
    var c := b + EscapeCsvField(job.targetUrl) + "\",\"";
    var d := c + EscapeCsvField(job.cssSelector) + "\",";
    assert '\n' !in a;
    assert '\n' !in b;
    assert '\n' !in c;
    assert '\n' !in d;
    assert CsvLine(job, r, stamp) == d + digits;
  }

  /**
   * With a line break of one line feed (as "\n" or "\r\n"), the document has
   * exactly one line per result after the header: the escaping keeps every
   * line break of the data out of the fields.
   */
  lemma {:induction false} CsvLineCount(job: ScrapingJob<string>, results: seq<ScrapingResult>,
                                        stamp: Time -> string, eol: string)
    requires CountChar(eol, '\n') == 1
    requires forall r :: r in results ==> '\n' !in stamp(r.scrapedAt)
    ensures CountChar(CsvDocument(job, results, stamp, eol), '\n') == |results| + 1
  {
    if results == [] {
      assert '\n' !in CsvHeader;
      CountCharAppend(CsvHeader, eol, '\n');
    } else {
      var init := results[..|results| - 1];
      var last := results[|results| - 1];
      assert forall r :: r in init ==> r in results;
      CsvLineCount(job, init, stamp, eol);
      CsvLineNoBreak(job, last, stamp);
      var d := CsvDocument(job, init, stamp, eol);
      CountCharAppend(d, CsvLine(job, last, stamp), '\n');
      CountCharAppend(d + CsvLine(job, last, stamp), eol, '\n');
    }
  }

  /** The lines follow the results' order: the document for a prefix of the results is a prefix of the document. */
  lemma {:induction false} CsvDocumentPrefix(job: ScrapingJob<string>, results: seq<ScrapingResult>,
                                             stamp: Time -> string, eol: string, k: nat)
    requires k <= |results|
    ensures var d := CsvDocument(job, results, stamp, eol);
            var p := CsvDocument(job, results[..k], stamp, eol);
            |p| <= |d| && d[..|p|] == p
    decreases |results|
  {
    if k < |results| {
      var init := results[..|results| - 1];
      assert init[..k] == results[..k];
      CsvDocumentPrefix(job, init, stamp, eol, k);
    } else {
      assert results[..k] == results;
    }
  }

  lemma CsvDocumentSnoc(job: ScrapingJob<string>, results: seq<ScrapingResult>, stamp: Time -> string, eol: string, i: int)
    requires 0 <= i < |results|
    ensures CsvDocument(job, results[..i + 1], stamp, eol)
         == CsvDocument(job, results[..i], stamp, eol) + CsvLine(job, results[i], stamp) + eol
  {
    assert results[..i + 1][..i] == results[..i];
  }

  datatype FileOutcome = FileDenied(gate: Gate) | CsvFile(content: string, contentType: string, fileName: string)

  /** scraping_job_{jobId}_results_{now:yyyyMMdd_HHmmss}.csv; `now` is the formatted clock reading. */
  function CsvFileName(jobId: int, now: string): string {
    "scraping_job_" + IntToString(jobId) + "_results_" + now + ".csv"
  }

  /** The gate every action of this controller applies to the job with the given id. */
  function JobGate(db: AppDb, principal: Principal, jobId: int): Gate
    reads db
  {
    CheckAccess(JobOwner(db.jobs, jobId), RequesterId(db.users, principal), principal.isAdmin)
  }

  /**
   * ExportCsv(jobId): the header, then one line per result of the job in its
   * collection order. Encoding the text as UTF-8 bytes is not modelled.
   */
  method ExportCsv(db: AppDb, principal: Principal, jobId: int, stamp: Time -> string, eol: string, now: string)
    returns (outcome: FileOutcome)
    ensures JobGate(db, principal, jobId) != Allowed ==> outcome == FileDenied(JobGate(db, principal, jobId))
    ensures JobGate(db, principal, jobId) == Allowed ==>
              outcome == CsvFile(CsvDocument(FindJob(db.jobs, jobId).value, ResultsOf(db.results, jobId), stamp, eol),
                                 "text/csv", CsvFileName(jobId, now))
  {
    var g := JobGate(db, principal, jobId);
    if g != Allowed {
      return FileDenied(g);
    }
    var job := FindJob(db.jobs, jobId).value;
    var results := ResultsOf(db.results, jobId);
    var csv := CsvHeader + eol;
    for i := 0 to |results|
      invariant csv == CsvDocument(job, results[..i], stamp, eol)
    {
      CsvDocumentSnoc(job, results, stamp, eol, i);
      var escapedText := EscapeCsvField(results[i].extractedText);
      var escapedUrl := EscapeCsvField(job.targetUrl);
      var escapedSelector := EscapeCsvField(job.cssSelector);
      csv := csv + ("\"" + escapedText + "\",\"" + stamp(results[i].scrapedAt) + "\",\"" + escapedUrl
                    + "\",\"" + escapedSelector + "\"," + IntToString(job.jobId)) + eol;
    }
    assert results[..|results|] == results;
    outcome := CsvFile(csv, "text/csv", CsvFileName(jobId, now));
  }

  // ---------------------------------------------------------------------------
  // Index: ordering and pagination
  // ---------------------------------------------------------------------------

  predicate NewestFirst(s: seq<ScrapingResult>) {
    forall i, j :: 0 <= i < j < |s| ==> s[i].scrapedAt >= s[j].scrapedAt
  }

  /** Insert x before the first row that is not newer than it. */
  function InsertByTime(x: ScrapingResult, s: seq<ScrapingResult>): (r: seq<ScrapingResult>)
    ensures |r| == |s| + 1
  {
    if s == [] || s[0].scrapedAt <= x.scrapedAt then [x] + s
    else [s[0]] + InsertByTime(x, s[1..])
  }

  lemma {:induction false} InsertByTimePerm(x: ScrapingResult, s: seq<ScrapingResult>)
    ensures multiset(InsertByTime(x, s)) == multiset(s) + multiset{x}
  {
    if !(s == [] || s[0].scrapedAt <= x.scrapedAt) {
      InsertByTimePerm(x, s[1..]);
      assert s == [s[0]] + s[1..];
    }
  }

  /** Every row of the insertion is x or a row of s. */
  lemma {:induction false} InsertByTimeFrom(x: ScrapingResult, s: seq<ScrapingResult>, j: int)
    requires 0 <= j < |InsertByTime(x, s)|
    ensures InsertByTime(x, s)[j] == x || exists k :: 0 <= k < |s| && s[k] == InsertByTime(x, s)[j]
  {
    if !(s == [] || s[0].scrapedAt <= x.scrapedAt) && j > 0 {
      InsertByTimeFrom(x, s[1..], j - 1);
      if InsertByTime(x, s)[j] != x {
        var k :| 0 <= k < |s[1..]| && s[1..][k] == InsertByTime(x, s)[j];
        assert s[k + 1] == InsertByTime(x, s)[j];
      }
    } else if j > 0 {
      assert InsertByTime(x, s)[j] == s[j - 1];
    }
  }

  lemma {:induction false} InsertByTimeSorted(x: ScrapingResult, s: seq<ScrapingResult>)
    requires NewestFirst(s)
    ensures NewestFirst(InsertByTime(x, s))
  {
    if !(s == [] || s[0].scrapedAt <= x.scrapedAt) {
      var t := InsertByTime(x, s[1..]);
      InsertByTimeSorted(x, s[1..]);
      forall j | 0 <= j < |t| ensures s[0].scrapedAt >= t[j].scrapedAt {
        InsertByTimeFrom(x, s[1..], j);
      }
      var r := [s[0]] + t;
      assert r == InsertByTime(x, s);
      forall i, j | 0 <= i < j < |r| ensures r[i].scrapedAt >= r[j].scrapedAt {
        assert r[j] == t[j - 1];
        if i > 0 {
          assert r[i] == t[i - 1];
        }
      }
    }
  }

  /**
   * OrderByDescending(r => r.ScrapedAt). The database does not fix the order of
   * equal timestamps; the model keeps them in table order.
   */
  function SortByTimeDesc(s: seq<ScrapingResult>): seq<ScrapingResult> {
    if s == [] then [] else InsertByTime(s[0], SortByTimeDesc(s[1..]))
  }

  /** The sorted sequence is newest first and a permutation of the input. */
  lemma {:induction false} SortByTimeDescCorrect(s: seq<ScrapingResult>)
    ensures NewestFirst(SortByTimeDesc(s))
    ensures multiset(SortByTimeDesc(s)) == multiset(s)
    ensures |SortByTimeDesc(s)| == |s|
  {
    if s != [] {
      SortByTimeDescCorrect(s[1..]);
      InsertByTimePerm(s[0], SortByTimeDesc(s[1..]));
      InsertByTimeSorted(s[0], SortByTimeDesc(s[1..]));
      assert s == [s[0]] + s[1..];
    }
    assert |multiset(SortByTimeDesc(s))| == |SortByTimeDesc(s)|;
  }

  /** Skip(offset).Take(count) on a list; None when PostgreSQL rejects a negative OFFSET or LIMIT. */
  function SkipTake(s: seq<ScrapingResult>, offset: int, count: int): (r: Option<seq<ScrapingResult>>)
    ensures r.Some? <==> offset >= 0 && count >= 0
    ensures r.Some? ==> |r.value| <= count
    ensures r.Some? ==> |r.value| == if offset >= |s| then 0 else Min(count, |s| - offset)
    ensures r.Some? && offset < |s| ==> r.value == s[offset..offset + |r.value|]
    ensures r.Some? && offset >= |s| ==> r.value == []
  {
    if offset < 0 || count < 0 then None
    else if offset >= |s| then Some([])
    else Some(s[offset..offset + Min(count, |s| - offset)])
  }

  function Min(a: int, b: int): int {
    if a <= b then a else b
  }

  /** (page - 1) * pageSize in unchecked 32-bit arithmetic. */
  function PageOffset(page: int, pageSize: int): (r: int)
    ensures IsInt32(r)
    ensures IsInt32((page - 1) * pageSize) ==> r == (page - 1) * pageSize
  {
    Wrap32((page - 1) * pageSize)
  }

  /**
   * (int)Math.Ceiling((double)total / pageSize) for a positive page size; the
   * quotient of two 32-bit integers is never rounded onto an integer, so the
   * ceiling is exact. A page size of zero divides by zero in floating point and
   * the cast's value is not fixed: None.
   */
  function TotalPages(total: nat, pageSize: int): (r: Option<int>)
    ensures r.Some? <==> pageSize > 0
  {
    if pageSize > 0 then Some((total + pageSize - 1) / pageSize) else None
  }

  /** TotalPages is the least page count whose pages hold all results. */
  lemma TotalPagesIsCeiling(total: nat, pageSize: int)
    requires pageSize > 0
    ensures var n := TotalPages(total, pageSize).value;
            n >= 0 && n * pageSize >= total && (n - 1) * pageSize < total
  {
    var n := (total + pageSize - 1) / pageSize;
    var m := (total + pageSize - 1) % pageSize;
    assert total + pageSize - 1 == n * pageSize + m;
    assert n * pageSize == total + pageSize - 1 - m;
    assert (n - 1) * pageSize == n * pageSize - pageSize;
  }

  datatype PageView = PageView(
    job: ScrapingJob<string>,
    items: seq<ScrapingResult>,
    currentPage: int,
    pageSize: int,
    totalResults: int,
    totalPages: Option<int>,
    hasPreviousPage: bool,
    hasNextPage: Option<bool>)

  datatype PageOutcome = PageDenied(gate: Gate) | PageQueryFailed | ResultsPage(view: PageView)

  /** The page of a sorted result list together with its metadata. */
  function Paginate(job: ScrapingJob<string>, sorted: seq<ScrapingResult>, page: int, pageSize: int): (o: PageOutcome)
    ensures o.PageQueryFailed? <==> PageOffset(page, pageSize) < 0 || pageSize < 0
    ensures o.ResultsPage? ==> |o.view.items| <= pageSize
    ensures o.ResultsPage? ==> SkipTake(sorted, PageOffset(page, pageSize), pageSize) == Some(o.view.items)
    ensures o.ResultsPage? ==> o.view.job == job && o.view.totalResults == |sorted|
  {
    match SkipTake(sorted, PageOffset(page, pageSize), pageSize)
    case None => PageQueryFailed
    case Some(items) =>
      var totalPages := TotalPages(|sorted|, pageSize);
      ResultsPage(PageView(job, items, page, pageSize, |sorted|, totalPages, page > 1,
                           if totalPages.Some? then Some(page < totalPages.value) else None))
  }

  /**
   * Index(jobId, page, pageSize): after the three checks, the page of the job's
   * results sorted newest first, with its metadata. `page` and `pageSize` are
   * C# ints.
   */
  function Index(db: AppDb, principal: Principal, jobId: int, page: int, pageSize: int): (o: PageOutcome)
    reads db
    requires IsInt32(page) && IsInt32(pageSize)
    ensures o.PageDenied? <==> JobGate(db, principal, jobId) != Allowed
    ensures o.PageDenied? ==> o.gate == JobGate(db, principal, jobId)
    ensures !o.PageDenied? ==>
              FindJob(db.jobs, jobId).Some? &&
              o == Paginate(FindJob(db.jobs, jobId).value, SortByTimeDesc(ResultsOf(db.results, jobId)), page, pageSize)
  {
    var g := JobGate(db, principal, jobId);
    if g != Allowed then PageDenied(g)
    else Paginate(FindJob(db.jobs, jobId).value, SortByTimeDesc(ResultsOf(db.results, jobId)), page, pageSize)
  }

  /**
   * For a positive page size and a page from 1 on whose offset does not wrap,
   * the page is the slice of the sorted results starting at (page - 1) * pageSize,
   * HasPreviousPage says whether results come before it and HasNextPage
   * whether results come after it.
   */
  lemma PageIsSlice(job: ScrapingJob<string>, sorted: seq<ScrapingResult>, page: int, pageSize: int)
    requires pageSize > 0 && page >= 1 && IsInt32((page - 1) * pageSize)
    ensures var o := Paginate(job, sorted, page, pageSize);
            var offset := (page - 1) * pageSize;
            && o.ResultsPage?
            && o.view.items == (if offset >= |sorted| then [] else sorted[offset..Min(offset + pageSize, |sorted|)])
            && (o.view.hasPreviousPage <==> offset > 0)
            && (o.view.hasNextPage == Some(true) <==> page * pageSize < |sorted|)
  {
    OffsetOfPage(page, pageSize);
    TotalPagesIsCeiling(|sorted|, pageSize);
    var n := TotalPages(|sorted|, pageSize).value;
    NextPageIffMore(|sorted|, pageSize, page, n);
  }

  /** The offset of page 1 is zero and every later page starts after it. */
  lemma OffsetOfPage(page: int, pageSize: int)
    requires pageSize > 0 && page >= 1
    ensures (page - 1) * pageSize >= 0
    ensures (page - 1) * pageSize > 0 <==> page > 1
  {
    MulNonNegative(page - 1, pageSize);
    if page > 1 {
      assert (page - 1) * pageSize >= pageSize;
    }
  }

  lemma NextPageIffMore(total: nat, pageSize: int, page: int, n: int)
    requires pageSize > 0 && n * pageSize >= total && (n - 1) * pageSize < total
    ensures page < n <==> page * pageSize < total
  {
    if page < n {
      assert page <= n - 1;
      assert page * pageSize <= (n - 1) * pageSize;
    } else {
      assert page * pageSize >= n * pageSize;
    }
  }

  /**
   * Every result is shown: the sorted result at q * pageSize + m, with
   * 0 <= m < pageSize, sits on page q + 1 at position m, and that page is within
   * TotalPages.
   */
  lemma EveryResultOnItsPage(job: ScrapingJob<string>, sorted: seq<ScrapingResult>, pageSize: int, q: int, m: int)
    requires pageSize > 0 && q >= 0 && 0 <= m < pageSize && q * pageSize + m < |sorted| && IsInt32(|sorted|)
    ensures var o := Paginate(job, sorted, q + 1, pageSize);
            && o.ResultsPage?
            && m < |o.view.items|
            && o.view.items[m] == sorted[q * pageSize + m]
            && q + 1 <= o.view.totalPages.value
  {
    MulNonNegative(q, pageSize);
    assert (q + 1 - 1) * pageSize == q * pageSize;
    PageIsSlice(job, sorted, q + 1, pageSize);
    TotalPagesIsCeiling(|sorted|, pageSize);
    NextPageIffMore(|sorted|, pageSize, q, TotalPages(|sorted|, pageSize).value);
  }

  lemma MulNonNegative(a: int, b: int)
    requires a >= 0 && b >= 0
    ensures a * b >= 0
  {
  }

  /** A page number from 2^30 + 1 on with two results per page wraps to a negative offset, which the database rejects. */
  lemma LargePageWraps(job: ScrapingJob<string>, sorted: seq<ScrapingResult>)
    ensures Paginate(job, sorted, 0x4000_0001, 2) == PageQueryFailed
  {
  }

  // ---------------------------------------------------------------------------
  // Delete
  // ---------------------------------------------------------------------------

  /** The owner of the job a result belongs to; None when no result has the id. */
  function ResultOwner(jobs: seq<ScrapingJob<string>>, results: seq<ScrapingResult>, id: int): (r: Option<string>)
    ensures r.None? <==> FindResult(results, id).None? || FindResult(results, id).value.jobId !in JobIds(jobs)
  {
    match FindResult(results, id)
    case None => None
    case Some(res) => JobOwner(jobs, res.jobId)
  }

  datatype DeleteOutcome = DeleteDenied(gate: Gate) | ResultDeleted(jobId: int, message: string)

  /** Delete(id): removes the one result and redirects to the results of its job. */
  method Delete(db: AppDb, principal: Principal, id: int) returns (outcome: DeleteOutcome)
    requires db.Valid()
    modifies db
    ensures db.Valid()
    ensures var g := CheckAccess(ResultOwner(old(db.jobs), old(db.results), id), RequesterId(old(db.users), principal),
                                 principal.isAdmin);
            if g == Allowed then
              && outcome == ResultDeleted(FindResult(old(db.results), id).value.jobId, "Result deleted successfully.")
              && db.results == ResultsWithout(old(db.results), id)
              && db.users == old(db.users) && db.jobs == old(db.jobs) && db.tags == old(db.tags)
              && db.jobTags == old(db.jobTags)
              && db.nextJobId == old(db.nextJobId) && db.nextResultId == old(db.nextResultId)
              && db.nextTagId == old(db.nextTagId)
            else outcome == DeleteDenied(g) && unchanged(db)
  {
    var g := CheckAccess(ResultOwner(db.jobs, db.results, id), RequesterId(db.users, principal), principal.isAdmin);
    if g != Allowed {
      return DeleteDenied(g);
    }
    var jobId := FindResult(db.results, id).value.jobId;
    DeleteResultWellFormed(db.jobs, db.results, db.tags, db.jobTags, db.nextJobId, db.nextResultId, db.nextTagId, id);
    db.results := ResultsWithout(db.results, id);
    outcome := ResultDeleted(jobId, "Result deleted successfully.");
  }

  /** In a well-formed table, deleting an existing result removes exactly that row and keeps the others in order. */
  lemma DeleteRemovesExactlyOne(results: seq<ScrapingResult>, next: int, id: int)
    requires KeysWellFormed(results, ResultKey, next)
    requires FindResult(results, id).Some?
    ensures exists i :: 0 <= i < |results| && results[i].resultId == id &&
              ResultsWithout(results, id) == results[..i] + results[i + 1..]
  {
    var r := FindResult(results, id).value;
    var i :| 0 <= i < |results| && results[i] == r;
    forall j | 0 <= j < |results| && j != i ensures ResultIsNot(id)(results[j]) {
      if j < i {
        assert ResultKey(results[j]) < ResultKey(results[i]);
      } else {
        assert ResultKey(results[i]) < ResultKey(results[j]);
      }
    }
    FilterRemovesOne(results, ResultIsNot(id), i);
  }
}
