/**
 * JobsController of the src tree (src/Controllers/JobsController.cs): the
 * scraping run in Create, the dashboard listing, the detail views and Delete.
 *
 * The network fetch and the HTML parser are inputs: a FetchOutcome says
 * whether LoadFromWebAsync produced a document and, if so, what SelectNodes
 * returns for each XPath expression.
 */
module JobsController {
  import opened Common
  import opened Schema
  import opened Selectors
  import opened TagService
  import opened Access
  import opened Store

  // ---------------------------------------------------------------------------
  // Inputs of the scraping run
  // ---------------------------------------------------------------------------

  /** A node returned by SelectNodes: its InnerText and the clock reading when the loop reaches it. */
  datatype MatchedNode = MatchedNode(innerText: string, visitedAt: Time)

  /** SelectNodes: a node collection, null when nothing matches, or an exception (a malformed expression). */
  datatype Selection = Matched(nodes: seq<MatchedNode>) | NoMatch | QueryError(message: string)

  /** LoadFromWebAsync: a loaded document (given by its SelectNodes), an HttpRequestException, or another exception. */
  datatype FetchOutcome =
    | Loaded(selectNodes: string -> Selection)
    | NetworkError(message: string)
    | OtherError(message: string)

  /** How the try block ends once the job row is saved: the node collection, or the exception caught. */
  datatype ScrapeOutcome = Scraped(nodes: seq<MatchedNode>) | ScrapeFailed(network: bool, message: string)

  /** The try block up to the loop: the fetch, then SelectNodes on the selector's XPath rendering. */
  function Scrape(fetch: FetchOutcome, cssSelector: string): (s: ScrapeOutcome)
    ensures fetch.NetworkError? <==> s.ScrapeFailed? && s.network
    ensures fetch.NetworkError? ==> s.message == fetch.message
    ensures fetch.OtherError? ==> s == ScrapeFailed(false, fetch.message)
    ensures fetch.Loaded? ==>
              match fetch.selectNodes(ToXPath(cssSelector))
              case Matched(nodes) => s == Scraped(nodes)
              case NoMatch => s == Scraped([])
              case QueryError(m) => s == ScrapeFailed(false, m)
  {
    match fetch
    case NetworkError(m) => ScrapeFailed(true, m)
    case OtherError(m) => ScrapeFailed(false, m)
    case Loaded(selectNodes) =>
      match selectNodes(ToXPath(cssSelector))
      case Matched(nodes) => Scraped(nodes)
      case NoMatch => Scraped([])
      case QueryError(m) => ScrapeFailed(false, m)
  }

  // ---------------------------------------------------------------------------
  // The extraction loop, specified
  // ---------------------------------------------------------------------------

  /** A stored text: non-empty, with no white space at either end. */
  predicate IsTrimmedText(s: string) {
    s != [] && !IsWhiteSpace(s[0]) && !IsWhiteSpace(s[|s| - 1])
  }

  /** What one node contributes: its trimmed text, unless that is blank. */
  function Extract(n: MatchedNode): (r: Option<MatchedNode>)
    ensures r.None? <==> IsBlank(Trim(n.innerText))
    ensures r.Some? ==> r.value == MatchedNode(Trim(n.innerText), n.visitedAt)
    ensures r.Some? ==> IsTrimmedText(r.value.innerText) && r.value.visitedAt == n.visitedAt
  {
    var t := Trim(n.innerText);
    if IsBlank(t) then None else Some(MatchedNode(t, n.visitedAt))
  }

  /** The results the loop keeps from a node collection, in match order. */
  function Extracted(nodes: seq<MatchedNode>): (r: seq<MatchedNode>)
    ensures |r| <= |nodes|
  {
    if nodes == [] then []
    else
      var init := Extracted(nodes[..|nodes| - 1]);
      match Extract(nodes[|nodes| - 1])
      case None => init
      case Some(x) => init + [x]
  }

  /** Every kept text is non-empty and has no white space at either end. */
  lemma {:induction false} ExtractedTrimmed(nodes: seq<MatchedNode>)
    ensures forall k :: 0 <= k < |Extracted(nodes)| ==> IsTrimmedText(Extracted(nodes)[k].innerText)
  {
    if nodes != [] {
      ExtractedTrimmed(nodes[..|nodes| - 1]);
    }
  }

  /** Extraction works node by node: the results for a concatenation are the two lists of results, in order. */
  lemma {:induction false} ExtractedAppend(a: seq<MatchedNode>, b: seq<MatchedNode>)
    ensures Extracted(a + b) == Extracted(a) + Extracted(b)
  {
    if b == [] {
      assert a + b == a;
    } else {
      var b' := b[..|b| - 1];
      assert (a + b)[..|a + b| - 1] == a + b';
      assert (a + b)[|a + b| - 1] == b[|b| - 1];
      ExtractedAppend(a, b');
    }
  }

  /** A node whose trimmed text is not blank. */
  predicate NonBlankNode(n: MatchedNode) {
    !IsBlank(Trim(n.innerText))
  }

  /** Each node with its text trimmed, in order. */
  function TrimNodes(ns: seq<MatchedNode>): (r: seq<MatchedNode>)
    ensures |r| == |ns|
  {
    if ns == [] then [] else [MatchedNode(Trim(ns[0].innerText), ns[0].visitedAt)] + TrimNodes(ns[1..])
  }

  /**
   * The loop's results, stated independently: the matched nodes whose trimmed
   * text is not blank, in match order, each carrying its trimmed text.
   */
  lemma {:induction false} ExtractedIsFilterThenTrim(nodes: seq<MatchedNode>)
    ensures Extracted(nodes) == TrimNodes(Filter(nodes, NonBlankNode))
  {
    if nodes != [] {
      var n := nodes[0];
      var rest := nodes[1..];
      assert nodes == [n] + rest;
      ExtractedAppend([n], rest);
      ExtractedSingleton(n);
      ExtractedIsFilterThenTrim(rest);
      var f := Filter(rest, NonBlankNode);
      assert Filter(nodes, NonBlankNode) == (if NonBlankNode(n) then [n] else []) + f;
      if NonBlankNode(n) {
        TrimNodesCons(n, f);
      } else {
        assert Filter(nodes, NonBlankNode) == f;
      }
    }
  }

  lemma ExtractedSingleton(n: MatchedNode)
    ensures Extracted([n]) == if NonBlankNode(n) then [MatchedNode(Trim(n.innerText), n.visitedAt)] else []
  {
    assert [n][..0] == [];
  }

  lemma TrimNodesCons(n: MatchedNode, f: seq<MatchedNode>)
    ensures TrimNodes([n] + f) == [MatchedNode(Trim(n.innerText), n.visitedAt)] + TrimNodes(f)
  {
    assert ([n] + f)[1..] == f;
  }

  /** The number of nodes whose trimmed text is not blank, counted from the front. */
  function CountNonBlank(nodes: seq<MatchedNode>): nat {
    if nodes == [] then 0
    else (if IsBlank(Trim(nodes[0].innerText)) then 0 else 1) + CountNonBlank(nodes[1..])
  }

  /** Each kept text comes from exactly one node whose trimmed text is not blank, and every such node counts. */
  lemma {:induction false} ExtractedCount(nodes: seq<MatchedNode>)
    ensures |Extracted(nodes)| == CountNonBlank(nodes)
  {
    if nodes != [] {
      assert nodes == [nodes[0]] + nodes[1..];
      ExtractedAppend([nodes[0]], nodes[1..]);
      assert [nodes[0]][..0] == [];
      ExtractedCount(nodes[1..]);
    }
  }

  /** The NewResult messages of the loop, numbered 1, 2, ... in order. */
  function Progress(jobId: int, kept: seq<MatchedNode>): (p: seq<Event>)
    ensures |p| == |kept|
  {
    if kept == [] then []
    else Progress(jobId, kept[..|kept| - 1]) + [NewResult(jobId, kept[|kept| - 1].innerText, |kept|)]
  }

  /** The k-th message announces the k-th kept text with the running count k + 1. */
  lemma {:induction false} ProgressNumbered(jobId: int, kept: seq<MatchedNode>)
    ensures forall k :: 0 <= k < |kept| ==> Progress(jobId, kept)[k] == NewResult(jobId, kept[k].innerText, k + 1)
  {
    if kept != [] {
      var init := kept[..|kept| - 1];
      ProgressNumbered(jobId, init);
      forall k | 0 <= k < |kept| ensures Progress(jobId, kept)[k] == NewResult(jobId, kept[k].innerText, k + 1) {
        if k < |init| {
          assert Progress(jobId, kept)[k] == Progress(jobId, init)[k];
          assert init[k] == kept[k];
        }
      }
    }
  }

  /** One more kept result adds one message at the end of the progress log. */
  lemma ProgressSnoc(jobId: int, kept: seq<MatchedNode>, x: MatchedNode)
    ensures Progress(jobId, kept + [x]) == Progress(jobId, kept) + [NewResult(jobId, x.innerText, |kept| + 1)]
  {
    assert (kept + [x])[..|kept|] == kept;
  }

  /** The rows SaveChangesAsync inserts for the kept results, with identity keys from firstId on. */
  function Rows(jobId: int, firstId: int, kept: seq<MatchedNode>): (r: seq<ScrapingResult>)
    ensures |r| == |kept|
    ensures forall k :: 0 <= k < |r| ==>
              r[k] == ScrapingResult(firstId + k, kept[k].innerText, kept[k].visitedAt, jobId)
  {
    if kept == [] then []
    else
      var n := |kept| - 1;
      Rows(jobId, firstId, kept[..n]) + [ScrapingResult(firstId + n, kept[n].innerText, kept[n].visitedAt, jobId)]
  }

  /** The keys and the job id of the rows Rows builds. */
  lemma RowsKeyed(jobId: int, firstId: int, kept: seq<MatchedNode>)
    ensures forall k :: 0 <= k < |kept| ==>
              ResultKey(Rows(jobId, firstId, kept)[k]) == firstId + k && Rows(jobId, firstId, kept)[k].jobId == jobId
  {
  }

  /**
   * What one SaveChangesAsync does with the pending changes: commits them, or
   * throws (a DbUpdateException; PostgreSQL refuses a NUL character in a text
   * column, for instance). The database's answer is an input of the model.
   */
  datatype SaveResult = Committed | SaveThrew(message: string)

  /**
   * The second SaveChangesAsync fails: there are rows to insert and the
   * database refuses them. With no pending change the call touches no table.
   */
  predicate ResultsSaveFails(s: ScrapeOutcome, save: SaveResult) {
    s.Scraped? && CountNonBlank(s.nodes) > 0 && save.SaveThrew?
  }

  /** The results a run stores: none when the try block fails. */
  function NewRows(jobId: int, firstId: int, s: ScrapeOutcome, save: SaveResult): seq<ScrapingResult> {
    match s
    case Scraped(nodes) =>
      var kept := Extracted(nodes);
      if kept != [] && save.SaveThrew? then [] else Rows(jobId, firstId, kept)
    case ScrapeFailed(_, _) => []
  }

  /** A run stores one row per kept text, or none when the fetch, the query or the results save fails. */
  lemma NewRowsStored(jobId: int, firstId: int, s: ScrapeOutcome, save: SaveResult)
    ensures s.ScrapeFailed? || ResultsSaveFails(s, save) ==> NewRows(jobId, firstId, s, save) == []
    ensures s.Scraped? && !ResultsSaveFails(s, save) ==> |NewRows(jobId, firstId, s, save)| == CountNonBlank(s.nodes)
  {
    if s.Scraped? {
      ExtractedCount(s.nodes);
    }
  }

  /** currentUser.UserName ?? currentUser.Email */
  function DisplayName(u: MyUser): Option<string> {
    if u.userName.Some? then u.userName else u.email
  }

  /**
   * The messages after JobStarted: the numbered results, then JobCompleted or,
   * when storing the results throws, JobFailed; or one JobFailed when the fetch
   * or the query throws.
   */
  function RunTail(jobId: int, s: ScrapeOutcome, save: SaveResult): seq<Event> {
    match s
    case Scraped(nodes) =>
      var kept := Extracted(nodes);
      if kept != [] && save.SaveThrew? then Progress(jobId, kept) + [JobFailed(0, save.message)]
      else Progress(jobId, kept) + [JobCompleted(jobId, |kept|)]
    case ScrapeFailed(network, m) =>
      [JobFailed(0, if network then "Network error: " + m else m)]
  }

  /** The complete message log of a run whose job row is saved. */
  function RunEvents(jobId: int, url: string, user: Option<string>, s: ScrapeOutcome, save: SaveResult): seq<Event> {
    [JobStarted(jobId, url, user)] + RunTail(jobId, s, save)
  }

  /**
   * The notification protocol: one JobStarted for the job first, then the
   * NewResult messages numbered 1..n, then either one JobCompleted carrying n
   * or one JobFailed whose job id is 0.
   */
  predicate WellOrderedLog(ev: seq<Event>, jobId: int) {
    && |ev| >= 2
    && ev[0] .JobStarted? && ev[0].jobId == jobId
    && (forall k :: 1 <= k < |ev| ==> !ev[k].JobStarted?)
    && (forall k :: 1 <= k < |ev| - 1 ==> ev[k].NewResult? && ev[k].jobId == jobId && ev[k].count == k)
    && ((ev[|ev| - 1].JobCompleted? && ev[|ev| - 1].jobId == jobId && ev[|ev| - 1].count == |ev| - 2)
        || (ev[|ev| - 1].JobFailed? && ev[|ev| - 1].jobId == 0))
  }

  lemma ProgressLogWellOrdered(jobId: int, url: string, user: Option<string>, kept: seq<MatchedNode>, last: Event)
    requires last == JobCompleted(jobId, |kept|) || (last.JobFailed? && last.jobId == 0)
    ensures WellOrderedLog([JobStarted(jobId, url, user)] + (Progress(jobId, kept) + [last]), jobId)
  {
    var p := Progress(jobId, kept);
    ProgressNumbered(jobId, kept);
    var ev := [JobStarted(jobId, url, user)] + (p + [last]);
    assert |ev| == |p| + 2;
    forall k | 1 <= k < |ev| - 1 ensures ev[k] == p[k - 1] {
    }
    assert ev[|ev| - 1] == last;
  }

  /**
   * Every run whose job is saved follows the protocol. It ends in JobFailed
   * exactly when the fetch or the query throws or storing the results does;
   * JobFailed names job 0, which is never a real job id.
   */
  lemma RunEventsWellOrdered(jobId: int, url: string, user: Option<string>, s: ScrapeOutcome, save: SaveResult)
    requires jobId >= 1
    ensures var ev := RunEvents(jobId, url, user, s, save);
            && WellOrderedLog(ev, jobId)
            && (ev[|ev| - 1].JobFailed? <==> s.ScrapeFailed? || ResultsSaveFails(s, save))
            && (ev[|ev| - 1].JobFailed? ==> ev[|ev| - 1].jobId != jobId)
            && (s.ScrapeFailed? ==> |ev| == 2)
            && (s.Scraped? ==> |ev| == CountNonBlank(s.nodes) + 2)
  {
    match s
    case Scraped(nodes) =>
      var kept := Extracted(nodes);
      ExtractedCount(nodes);
      var last := ScrapedTailShape(jobId, nodes, save);
      ProgressLogWellOrdered(jobId, url, user, kept, last);
      var ev := RunEvents(jobId, url, user, s, save);
      assert ev == [JobStarted(jobId, url, user)] + (Progress(jobId, kept) + [last]);
      assert ev[|ev| - 1] == last;
    case ScrapeFailed(_, _) =>
  }

  /** After a scrape, the tail is the progress log and one closing message. */
  lemma ScrapedTailShape(jobId: int, nodes: seq<MatchedNode>, save: SaveResult) returns (last: Event)
    ensures RunTail(jobId, Scraped(nodes), save) == Progress(jobId, Extracted(nodes)) + [last]
    ensures last.JobFailed? <==> Extracted(nodes) != [] && save.SaveThrew?
    ensures last.JobFailed? ==> last.jobId == 0
    ensures !last.JobFailed? ==> last == JobCompleted(jobId, |Extracted(nodes)|)
  {
    var kept := Extracted(nodes);
    if kept != [] && save.SaveThrew? {
      last := JobFailed(0, save.message);
    } else {
      last := JobCompleted(jobId, |kept|);
    }
  }

  datatype CreateOutcome =
    | InvalidInput(message: string)
    | CreateUnauthorized
    | Created(message: string)             // redirect to Index with a success message
    | SavedWithoutResults(message: string) // the form again, with the job kept
    | CreateFailed(message: string)        // the form again, after an exception

  const MissingInputMessage: string := "Please provide both URL and selector."
  const NoResultsMessage: string := "No results found for the given selector. The job was saved for your records."

  /** The message of the general catch block. */
  function ErrorMessage(m: string): string {
    "Error occurred while creating the job: " + m
  }

  /** The outcome of a run whose job row is saved. */
  function RunOutcome(s: ScrapeOutcome, save: SaveResult): (o: CreateOutcome)
    ensures o.Created? <==> s.Scraped? && CountNonBlank(s.nodes) > 0 && save.Committed?
    ensures o.SavedWithoutResults? <==> s.Scraped? && CountNonBlank(s.nodes) == 0
    ensures o.CreateFailed? <==> s.ScrapeFailed? || ResultsSaveFails(s, save)
    ensures ResultsSaveFails(s, save) ==> o == CreateFailed(ErrorMessage(save.message))
  {
    match s
    case Scraped(nodes) =>
      ExtractedCount(nodes);
      var n := |Extracted(nodes)|;
      if n > 0 && save.SaveThrew? then CreateFailed(ErrorMessage(save.message))
      else if n > 0 then Created("Scraping job created successfully with " + IntToString(n) + " results.")
      else SavedWithoutResults(NoResultsMessage)
    case ScrapeFailed(network, m) =>
      if network then CreateFailed("Failed to access the website: " + m + ". Please check the URL and try again.")
      else CreateFailed(ErrorMessage(m))
  }

  /**
   * A page on which the selector matches nothing (SelectNodes returns null):
   * the job is kept without results, JobCompleted reports 0, and the form
   * shows the no-results message.
   */
  lemma NoMatchSavesWithoutResults(fetch: FetchOutcome, cssSelector: string, jobId: int, firstId: int,
                                   save: SaveResult)
    requires fetch.Loaded? && fetch.selectNodes(ToXPath(cssSelector)).NoMatch?
    ensures var s := Scrape(fetch, cssSelector);
            && RunOutcome(s, save) == SavedWithoutResults(NoResultsMessage)
            && NewRows(jobId, firstId, s, save) == []
            && RunTail(jobId, s, save) == [JobCompleted(jobId, 0)]
  {
    assert Extracted([]) == [];
  }

  /** The join rows job.Tags.Add creates for the tags GetTagsByIdsAsync returned. */
  function NewJobTags(tags: seq<Tag>, jobId: int, selectedTags: seq<int>): set<JobTag> {
    set t | t in SelectedTagIds(tags, selectedTags) :: (jobId, t)
  }

  /** Every new join row names the new job and an existing tag. */
  lemma NewJobTagsRefer(tags: seq<Tag>, jobId: int, selectedTags: seq<int>)
    ensures forall p :: p in NewJobTags(tags, jobId, selectedTags) ==> p.0 == jobId && p.1 in TagIds(tags)
  {
  }

  /** The new job's tag set is exactly the existing tags that were selected; unknown ids are dropped. */
  lemma NewJobTagsAreSelected(tags: seq<Tag>, jobId: int, selectedTags: seq<int>)
    ensures TagsOf(NewJobTags(tags, jobId, selectedTags), jobId) == TagIds(tags) * (set i | i in selectedTags)
  {
    var r := NewJobTags(tags, jobId, selectedTags);
    forall t | t in SelectedTagIds(tags, selectedTags) ensures t in TagsOf(r, jobId) {
      assert (jobId, t) in r;
    }
  }

  /**
   * The foreach over the node collection: trims each text, skips blank ones,
   * and announces every kept result with the running count.
   */
  method ExtractResults(hub: Hub, jobId: int, nodes: seq<MatchedNode>) returns (kept: seq<MatchedNode>)
    modifies hub
    ensures kept == Extracted(nodes)
    ensures hub.sent == old(hub.sent) + Progress(jobId, kept)
  {
    kept := [];
    var resultCount := 0;
    for i := 0 to |nodes|
      invariant kept == Extracted(nodes[..i])
      invariant resultCount == |kept|
      invariant hub.sent == old(hub.sent) + Progress(jobId, kept)
    {
      ExtractedSnoc(nodes, i);
      // the node's text trimmed, or nothing when it is blank
      match Extract(nodes[i])
      case None =>
      case Some(result) =>
        ProgressSnoc(jobId, kept, result);
        AppendAssoc(old(hub.sent), Progress(jobId, kept), [NewResult(jobId, result.innerText, resultCount + 1)]);
        kept := kept + [result];
        resultCount := resultCount + 1;
        hub.Send(NewResult(jobId, result.innerText, resultCount));
    }
    assert nodes[..|nodes|] == nodes;
  }

  /** Extraction of one more node: its result, if any, goes at the end. */
  lemma ExtractedSnoc(nodes: seq<MatchedNode>, i: int)
    requires 0 <= i < |nodes|
    ensures Extracted(nodes[..i + 1]) ==
              match Extract(nodes[i])
              case None => Extracted(nodes[..i])
              case Some(x) => Extracted(nodes[..i]) + [x]
  {
    assert nodes[..i + 1][..i] == nodes[..i];
  }

  // ---------------------------------------------------------------------------
  // Create (POST)
  // ---------------------------------------------------------------------------

  /**
   * Create(targetUrl, cssSelector, selectedTags): validates the input, saves the
   * job with its tags, announces it, scrapes, stores the results and reports.
   * The model binding turns an empty or white-space-only field into null, and
   * a null array is modelled as an empty one; `now` is the clock
   * reading for CreatedAt; `jobSave` and `resultsSave` are the database's
   * answers to the two SaveChangesAsync calls.
   */
  method Create(db: AppDb, hub: Hub, principal: Principal, targetUrl: string, cssSelector: string,
                selectedTags: seq<int>, now: Time, fetch: FetchOutcome, jobSave: SaveResult, resultsSave: SaveResult)
    returns (outcome: CreateOutcome)
    requires db.Valid()
    modifies db, hub
    ensures db.Valid()
    ensures db.users == old(db.users) && db.tags == old(db.tags) && db.nextTagId == old(db.nextTagId)
    ensures IsBlank(targetUrl) || IsBlank(cssSelector) ==>
              outcome == InvalidInput(MissingInputMessage) && unchanged(db) && hub.sent == old(hub.sent)
    ensures !IsBlank(targetUrl) && !IsBlank(cssSelector) && CurrentUser(old(db.users), principal.email).None? ==>
              outcome == CreateUnauthorized && unchanged(db) && hub.sent == old(hub.sent)
    ensures !IsBlank(targetUrl) && !IsBlank(cssSelector) && CurrentUser(old(db.users), principal.email).Some? &&
            jobSave.SaveThrew? ==>
              && outcome == CreateFailed(ErrorMessage(jobSave.message)) && unchanged(db)
              && hub.sent == old(hub.sent) + [JobFailed(0, jobSave.message)]
    ensures !IsBlank(targetUrl) && !IsBlank(cssSelector) && CurrentUser(old(db.users), principal.email).Some? &&
            jobSave.Committed? ==>
              var user := CurrentUser(old(db.users), principal.email).value;
              var jobId := old(db.nextJobId);
              var s := Scrape(fetch, cssSelector);
              var rows := NewRows(jobId, old(db.nextResultId), s, resultsSave);
              && db.jobs == old(db.jobs) + [ScrapingJob(jobId, targetUrl, cssSelector, now, user.id)]
              && db.nextJobId == jobId + 1
              && db.jobTags == old(db.jobTags) + NewJobTags(old(db.tags), jobId, selectedTags)
              && db.results == old(db.results) + rows
              && db.nextResultId == old(db.nextResultId) + |rows|
              && hub.sent == old(hub.sent) + RunEvents(jobId, targetUrl, DisplayName(user), s, resultsSave)
              && outcome == RunOutcome(s, resultsSave)
  {
    if IsBlank(targetUrl) || IsBlank(cssSelector) {
      return InvalidInput(MissingInputMessage);
    }
    var current := CurrentUser(db.users, principal.email);
    if current.None? {
      return CreateUnauthorized;
    }
    var user := current.value;

    // the job row with its tags; SaveChangesAsync assigns the identity key
    if jobSave.SaveThrew? {
      hub.Send(JobFailed(0, jobSave.message));
      return CreateFailed(ErrorMessage(jobSave.message));
    }
    var jobId := db.nextJobId;
    NewJobTagsRefer(db.tags, jobId, selectedTags);
    SaveJob(db, ScrapingJob(jobId, targetUrl, cssSelector, now, user.id), NewJobTags(db.tags, jobId, selectedTags));
    hub.Send(JobStarted(jobId, targetUrl, DisplayName(user)));
    var s := Scrape(fetch, cssSelector);
    outcome := RunJob(db, hub, jobId, s, resultsSave);
    AppendAssoc(old(hub.sent), [JobStarted(jobId, targetUrl, DisplayName(user))], RunTail(jobId, s, resultsSave));
  }

  /**
   * Everything after JobStarted: the scrape's results are stored and announced,
   * or the failure of the fetch, the query or the save is reported.
   */
  method RunJob(db: AppDb, hub: Hub, jobId: int, s: ScrapeOutcome, save: SaveResult) returns (outcome: CreateOutcome)
    requires db.Valid() && jobId in JobIds(db.jobs)
    modifies db, hub
    ensures db.Valid()
    ensures db.results == old(db.results) + NewRows(jobId, old(db.nextResultId), s, save)
    ensures db.nextResultId == old(db.nextResultId) + |NewRows(jobId, old(db.nextResultId), s, save)|
    ensures db.users == old(db.users) && db.jobs == old(db.jobs) && db.tags == old(db.tags) && db.jobTags == old(db.jobTags)
    ensures db.nextJobId == old(db.nextJobId) && db.nextTagId == old(db.nextTagId)
    ensures hub.sent == old(hub.sent) + RunTail(jobId, s, save)
    ensures outcome == RunOutcome(s, save)
  {
    outcome := RunOutcome(s, save);
    match s
    case ScrapeFailed(network, m) =>
      hub.Send(JobFailed(0, if network then "Network error: " + m else m));
    case Scraped(nodes) =>
      var kept := ExtractResults(hub, jobId, nodes);
      var h := hub.sent;
      FinishRun(db, hub, jobId, kept, save);
      AppendAssoc(old(hub.sent), Progress(jobId, kept), hub.sent[|h|..]);
      assert hub.sent == h + hub.sent[|h|..];
      assert RunTail(jobId, s, save) == Progress(jobId, kept) + hub.sent[|h|..];
  }

  /**
   * The second SaveChangesAsync and the message after it: the rows and
   * JobCompleted, or, when the save throws, JobFailed and no row.
   */
  method FinishRun(db: AppDb, hub: Hub, jobId: int, kept: seq<MatchedNode>, save: SaveResult)
    requires db.Valid() && jobId in JobIds(db.jobs)
    modifies db, hub
    ensures db.Valid()
    ensures kept != [] && save.SaveThrew? ==>
              hub.sent == old(hub.sent) + [JobFailed(0, save.message)] && db.results == old(db.results)
    ensures !(kept != [] && save.SaveThrew?) ==>
              && hub.sent == old(hub.sent) + [JobCompleted(jobId, |kept|)]
              && db.results == old(db.results) + Rows(jobId, old(db.nextResultId), kept)
    ensures db.nextResultId == old(db.nextResultId) + |db.results| - |old(db.results)|
    ensures db.users == old(db.users) && db.jobs == old(db.jobs) && db.tags == old(db.tags) && db.jobTags == old(db.jobTags)
    ensures db.nextJobId == old(db.nextJobId) && db.nextTagId == old(db.nextTagId)
  {
    if kept != [] && save.SaveThrew? {
      // the save throws and the catch block reports it
      hub.Send(JobFailed(0, save.message));
    } else {
      // the rows are inserted in the order they were added
      RowsKeyed(jobId, db.nextResultId, kept);
      SaveResults(db, Rows(jobId, db.nextResultId, kept));
      hub.Send(JobCompleted(jobId, |kept|));
    }
  }

  /** Regrouping a concatenation of message logs. */
  lemma AppendAssoc<T>(a: seq<T>, b: seq<T>, c: seq<T>)
    ensures (a + b) + c == a + (b + c)
  {
  }

  /** The first SaveChangesAsync: the new job row and its join rows. */
  method SaveJob(db: AppDb, job: ScrapingJob<string>, tagRows: set<JobTag>)
    requires db.Valid() && job.jobId == db.nextJobId
    requires forall p :: p in tagRows ==> p.0 == job.jobId && p.1 in TagIds(db.tags)
    modifies db
    ensures db.Valid()
    ensures db.jobs == old(db.jobs) + [job] && db.jobTags == old(db.jobTags) + tagRows
    ensures db.nextJobId == old(db.nextJobId) + 1 && job.jobId in JobIds(db.jobs)
    ensures db.users == old(db.users) && db.results == old(db.results) && db.tags == old(db.tags)
    ensures db.nextResultId == old(db.nextResultId) && db.nextTagId == old(db.nextTagId)
  {
    AddJobWellFormed(db.jobs, db.results, db.tags, db.jobTags, db.nextJobId, db.nextResultId, db.nextTagId,
                     job, tagRows);
    db.jobs := db.jobs + [job];
    db.jobTags := db.jobTags + tagRows;
    db.nextJobId := db.nextJobId + 1;
    assert db.jobs[|db.jobs| - 1] == job;
  }

  /** The second SaveChangesAsync: result rows numbered on from the identity counter. */
  method SaveResults(db: AppDb, rows: seq<ScrapingResult>)
    requires db.Valid()
    requires forall k :: 0 <= k < |rows| ==> ResultKey(rows[k]) == db.nextResultId + k && rows[k].jobId in JobIds(db.jobs)
    modifies db
    ensures db.Valid()
    ensures db.results == old(db.results) + rows && db.nextResultId == old(db.nextResultId) + |rows|
    ensures db.users == old(db.users) && db.jobs == old(db.jobs) && db.tags == old(db.tags) && db.jobTags == old(db.jobTags)
    ensures db.nextJobId == old(db.nextJobId) && db.nextTagId == old(db.nextTagId)
  {
    AddResultsWellFormed(db.jobs, db.results, db.tags, db.jobTags, db.nextJobId, db.nextResultId, db.nextTagId, rows);
    db.results := db.results + rows;
    db.nextResultId := db.nextResultId + |rows|;
  }

  // ---------------------------------------------------------------------------
  // Index, Details, Delete
  // ---------------------------------------------------------------------------

  datatype Listing<T> = ListUnauthorized | Listing(items: seq<T>)

  /** Index: Unauthorized without a current user; all jobs for an admin, otherwise the user's own; newest id first. */
  function Index(db: AppDb, principal: Principal): (r: Listing<ScrapingJob<string>>)
    reads db
    ensures r.ListUnauthorized? <==> CurrentUser(db.users, principal.email).None?
    ensures r.Listing? ==> forall j :: j in r.items <==>
              j in db.jobs && MayAccess(principal.isAdmin, j.userId, CurrentUser(db.users, principal.email).value.id)
  {
    match CurrentUser(db.users, principal.email)
    case None => ListUnauthorized
    case Some(u) =>
      var visible := Filter(db.jobs, (j: ScrapingJob<string>) => MayAccess(principal.isAdmin, j.userId, u.id));
      ReverseMembers(visible);
      Listing(Reverse(visible))
  }

  /** In a well-formed store the dashboard lists jobs in strictly descending id order. */
  lemma IndexDescending(db: AppDb, principal: Principal)
    requires db.Valid()
    requires Index(db, principal).Listing?
    ensures var items := Index(db, principal).items;
            forall i, j :: 0 <= i < j < |items| ==> items[i].jobId > items[j].jobId
  {
    var u := CurrentUser(db.users, principal.email).value;
    var keep := (j: ScrapingJob<string>) => MayAccess(principal.isAdmin, j.userId, u.id);
    FilterAscending(db.jobs, keep, JobKey);
    ReverseDescending(Filter(db.jobs, keep), JobKey);
  }

  /** The Details view: the job with its results and the ids of its tags, beside the whole tag list. */
  datatype JobView = JobView(job: ScrapingJob<string>, results: seq<ScrapingResult>, selectedTagIds: set<int>, allTags: seq<Tag>)

  datatype DetailsOutcome = DetailsDenied(gate: Gate) | DetailsShown(view: JobView)

  /**
   * Details(id), and JobDetails(id), which runs the same steps: the job, then the
   * current user, then the owner-or-admin rule.
   */
  function Details(db: AppDb, principal: Principal, id: int): (r: DetailsOutcome)
    reads db
    ensures var g := CheckAccess(JobOwner(db.jobs, id), RequesterId(db.users, principal), principal.isAdmin);
            && (r.DetailsShown? <==> g == Allowed)
            && (r.DetailsDenied? ==> r.gate == g)
    ensures r.DetailsShown? ==>
              && r.view.job in db.jobs && r.view.job.jobId == id
              && r.view.results == ResultsOf(db.results, id)
              && r.view.selectedTagIds == TagsOf(db.jobTags, id)
              && r.view.allTags == db.tags
  {
    var g := CheckAccess(JobOwner(db.jobs, id), RequesterId(db.users, principal), principal.isAdmin);
    if g != Allowed then DetailsDenied(g)
    else DetailsShown(JobView(FindJob(db.jobs, id).value, ResultsOf(db.results, id), TagsOf(db.jobTags, id), db.tags))
  }

  datatype DeleteOutcome = DeleteDenied(gate: Gate) | Deleted(message: string)

  /**
   * Delete(id): removes the job after the three checks; the database cascade
   * removes its results and its ScrapingJobTags rows.
   */
  method Delete(db: AppDb, principal: Principal, id: int) returns (outcome: DeleteOutcome)
    requires db.Valid()
    modifies db
    ensures db.Valid()
    ensures var g := CheckAccess(JobOwner(old(db.jobs), id), RequesterId(old(db.users), principal), principal.isAdmin);
            if g == Allowed then
              && outcome == Deleted("Job deleted successfully.")
              && db.jobs == JobsWithout(old(db.jobs), id)
              && db.results == ResultsNotOf(old(db.results), {id})
              && db.jobTags == RowsNotOfJobs(old(db.jobTags), {id})
              && db.users == old(db.users) && db.tags == old(db.tags)
              && db.nextJobId == old(db.nextJobId) && db.nextResultId == old(db.nextResultId)
              && db.nextTagId == old(db.nextTagId)
            else outcome == DeleteDenied(g) && unchanged(db)
  {
    var g := CheckAccess(JobOwner(db.jobs, id), RequesterId(db.users, principal), principal.isAdmin);
    if g != Allowed {
      return DeleteDenied(g);
    }
    RemoveJob(db, id);
    outcome := Deleted("Job deleted successfully.");
  }

  /** Remove on the job and SaveChangesAsync, with the cascade to its results and join rows. */
  method RemoveJob(db: AppDb, id: int)
    requires db.Valid()
    modifies db
    ensures db.Valid()
    ensures db.jobs == JobsWithout(old(db.jobs), id)
    ensures db.results == ResultsNotOf(old(db.results), {id})
    ensures db.jobTags == RowsNotOfJobs(old(db.jobTags), {id})
    ensures db.users == old(db.users) && db.tags == old(db.tags)
    ensures db.nextJobId == old(db.nextJobId) && db.nextResultId == old(db.nextResultId) && db.nextTagId == old(db.nextTagId)
  {
    DeleteJobWellFormed(db.jobs, db.results, db.tags, db.jobTags, db.nextJobId, db.nextResultId, db.nextTagId, id);
    db.jobs := JobsWithout(db.jobs, id);
    db.results := ResultsNotOf(db.results, {id});
    db.jobTags := RowsNotOfJobs(db.jobTags, {id});
  }
}
