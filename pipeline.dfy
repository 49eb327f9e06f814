/**
 * The article pipeline of main.py: one record per URL, built from the
 * outcome of fetching, sanitising, splitting and scoring the article.
 *
 * Fetching and sanitising are outside the model: the HTTP response of a
 * job and the sanitiser arrive as parameters, and so do the lemmatiser and
 * the clock that split_by_words reads.
 */
module Pipeline {
  import opened Wrappers
  import opened TextTools

  /** The URLs main() processes, in order. */
  const TestArticles: seq<string> := [
    "https://inosmi.ru/20230619/raketa-263752174.html",
    "https://inosmi.ru/20190629/245384784.html",
    "https://inosmi.ru/20221231/nauka-259263272.html",
    "http://example.com",
    "https://inosmi.ru/20230611/antropologiya-263558745.html",
    "https://inosmi.ru/20230521/egipet-262991012.html"
  ]

  // ---------------------------------------------------------------------
  // ProcessingStatus
  // ---------------------------------------------------------------------

  /** The two members of the ProcessingStatus enumeration. */
  datatype ProcessingStatus = Ok | FetchError
  {
    /** The enumeration member's value, the string stored in a record. */
    function Value(): (v: string)
      ensures v == "OK" || v == "FETCH_ERROR"
      ensures (v == "OK") <==> this.Ok?
    {
      match this
      case Ok => "OK"
      case FetchError => "FETCH_ERROR"
    }
  }

  /** `ProcessingStatus(v)`: the member whose value is `v`, if there is one. */
  function StatusFromValue(v: string): (s: Option<ProcessingStatus>)
    ensures s.Some? ==> s.value.Value() == v
  {
    if v == "OK" then Some(Ok)
    else if v == "FETCH_ERROR" then Some(FetchError)
    else None
  }

  /** Every member is recovered from its value, so distinct members have distinct values. */
  lemma StatusValueRoundTrip(s: ProcessingStatus)
    ensures StatusFromValue(s.Value()) == Some(s)
  {
    match s
    case Ok =>
    case FetchError =>
      assert "FETCH_ERROR"[0] != "OK"[0];
  }

  /** A string is a status value exactly when it is the value of some member. */
  lemma StatusValues(v: string)
    ensures StatusFromValue(v).Some? <==> v == Ok.Value() || v == FetchError.Value()
  {
    if v == FetchError.Value() {
      StatusValueRoundTrip(FetchError);
    }
  }

  // ---------------------------------------------------------------------
  // charged words
  // ---------------------------------------------------------------------

  /** The charged words: the dictionary's lines with their line breaks removed. */
  function ChargedWords(lines: seq<string>): (words: seq<string>)
    ensures |words| == |lines|
    ensures forall k, i :: 0 <= k < |words| && 0 <= i < |words[k]| ==> words[k][i] != '\n'
  {
    if lines == [] then [] else [Without(lines[0], '\n')] + ChargedWords(lines[1..])
  }

  /** A line without a line break is its own charged word. */
  lemma {:induction false} WithoutAbsent(w: string, c: char)
    requires forall i :: 0 <= i < |w| ==> w[i] != c
    ensures Without(w, c) == w
  {
    if w != [] {
      WithoutAbsent(w[1..], c);
      assert w == [w[0]] + w[1..];
    }
  }

  /** Removing the line breaks keeps every other character of a line, in order. */
  lemma {:induction false} WithoutLineBreakThenLine(w: string)
    ensures Without(w + "\n", '\n') == Without(w, '\n')
    decreases |w|
  {
    if w == [] {
      assert Without("\n", '\n') == [] + Without("", '\n');
    } else {
      assert (w + "\n")[1..] == w[1..] + "\n";
      WithoutLineBreakThenLine(w[1..]);
    }
  }

  /** Lines that end in a line break, and contain no other, give back the words. */
  lemma {:induction false} ChargedWordsOfLines(ws: seq<string>)
    requires forall k, i :: 0 <= k < |ws| && 0 <= i < |ws[k]| ==> ws[k][i] != '\n'
    ensures ChargedWords(seq(|ws|, k requires 0 <= k < |ws| => ws[k] + "\n")) == ws
    decreases |ws|
  {
    var lines := seq(|ws|, k requires 0 <= k < |ws| => ws[k] + "\n");
    if ws != [] {
      WithoutLineBreakThenLine(ws[0]);
      WithoutAbsent(ws[0], '\n');
      assert lines[1..] == seq(|ws[1..]|, k requires 0 <= k < |ws[1..]| => ws[1..][k] + "\n");
      ChargedWordsOfLines(ws[1..]);
      assert ws == [ws[0]] + ws[1..];
    }
  }

  // ---------------------------------------------------------------------
  // process_article
  // ---------------------------------------------------------------------

  /** The dictionary process_article appends: url, status value, words_count and score. */
  datatype ArticleRecord = ArticleRecord(
    url: string,
    status: string,
    wordsCount: Option<nat>,
    score: Option<real>)
  {
    /** An OK record carries a count and a score; a FETCH_ERROR record carries neither. */
    predicate WellFormed() {
      || (status == Ok.Value() && wordsCount.Some? && score.Some?
          && 0.0 <= score.value <= 100.0)
      || (status == FetchError.Value() && wordsCount.None? && score.None?)
    }
  }

  /** What fetch yields: an aiohttp.ClientError, or the page's HTML. */
  datatype Response = ClientError | Html(html: string)

  /**
   * The sanitiser of the article's site: the article text, or None where it
   * raises ArticleNotFound.
   */
  type Sanitizer = string -> Option<string>

  /** The exceptions that process_article does not catch. */
  datatype Uncaught = TimeoutError | TypeError

  /** One task of the batch: it appends a record, or raises. */
  datatype JobOutcome = Appended(record: ArticleRecord) | Raised(error: Uncaught)

  /** The text sanitize extracts from a response, or None where process_article reports FETCH_ERROR. */
  function ArticleText(sanitize: Sanitizer, response: Response): (text: Option<string>)
    ensures text.None? <==> response.ClientError? || sanitize(response.html).None?
  {
    match response
    case ClientError => None
    case Html(html) => sanitize(html)
  }

  /** The except branch: a record with status FETCH_ERROR and neither count nor score. */
  function FetchErrorRecord(url: string): (rec: ArticleRecord)
    ensures rec.WellFormed() && rec.url == url && StatusFromValue(rec.status) == Some(FetchError)
  {
    StatusValueRoundTrip(FetchError);
    ArticleRecord(url, FetchError.Value(), None, None)
  }

  /** The try branch: status OK, the number of words and their jaundice rate. */
  function OkRecord(url: string, words: seq<string>, chargedWords: seq<string>): (rec: ArticleRecord)
    ensures rec.WellFormed() && rec.url == url && StatusFromValue(rec.status) == Some(Ok)
    ensures rec.wordsCount == Some(|words|)
  {
    ArticleRecord(url, Ok.Value(), Some(|words|), Some(JaundiceRate(words, chargedWords)))
  }

  /**
   * process_article as evidently intended, with split_by_words entered as the
   * context manager it is: a FETCH_ERROR record when fetching or sanitising
   * fails, the TimeoutError of split_by_words passed on, and an OK record
   * otherwise.
   */
  function ArticleOutcome(morph: Lemmatizer, sanitize: Sanitizer, chargedWords: seq<string>,
                          url: string, response: Response, clock: Clock): (o: JobOutcome)
    ensures o.Appended? ==> o.record.url == url && o.record.WellFormed()
    ensures o.Raised? ==> o.error == TimeoutError
  {
    match ArticleText(sanitize, response)
    case None => Appended(FetchErrorRecord(url))
    case Some(text) =>
      var tokens := Tokens(text);
      if TimedOutWithin(clock, |tokens|) then Raised(TimeoutError)
      else Appended(OkRecord(url, KeepWords(Normalizer(morph), tokens), chargedWords))
  }

  /** The error cases of process_article: which outcome each failure leads to. */
  lemma ArticleOutcomeCases(morph: Lemmatizer, sanitize: Sanitizer, chargedWords: seq<string>,
                            url: string, response: Response, clock: Clock)
    ensures var o := ArticleOutcome(morph, sanitize, chargedWords, url, response, clock);
      && (o == Appended(FetchErrorRecord(url))
          <==> response.ClientError? || sanitize(response.html).None?)
      && (o.Raised?
          <==> ArticleText(sanitize, response).Some?
               && TimedOutWithin(clock, |Tokens(ArticleText(sanitize, response).value)|))
  {
  }

  /** When the text is there and the split finishes in time, the OK record counts the words and scores them. */
  lemma ArticleOutcomeOk(morph: Lemmatizer, sanitize: Sanitizer, chargedWords: seq<string>,
                         url: string, response: Response, clock: Clock, text: string)
    requires ArticleText(sanitize, response) == Some(text)
    requires !TimedOutWithin(clock, |Tokens(text)|)
    ensures var words := KeepWords(Normalizer(morph), Tokens(text));
      ArticleOutcome(morph, sanitize, chargedWords, url, response, clock)
      == Appended(ArticleRecord(url, "OK", Some(|words|), Some(JaundiceRate(words, chargedWords))))
  {
  }

  /**
   * process_article as written: `split_by_words(morph, text)` only creates
   * the context manager, and `len` of it raises TypeError, which the except
   * clause does not catch.
   */
  function ArticleOutcomeAsWritten(sanitize: Sanitizer, url: string, response: Response): (o: JobOutcome)
    ensures o.Appended? ==> o.record.url == url && o.record.WellFormed()
  {
    match ArticleText(sanitize, response)
    case None => Appended(FetchErrorRecord(url))
    case Some(_) => Raised(TypeError)
  }

  /** As written, no article ever gets the status OK. */
  lemma AsWrittenNeverOk(sanitize: Sanitizer, url: string, response: Response)
    ensures var o := ArticleOutcomeAsWritten(sanitize, url, response);
      o.Appended? ==> StatusFromValue(o.record.status) == Some(FetchError)
  {
  }

  /**
   * An article whose text is empty: the corrected pipeline records it as OK
   * with no words and score 0.0, while the code as written raises TypeError.
   */
  lemma AsWrittenRaisesOnEmptyArticle(morph: Lemmatizer, sanitize: Sanitizer, chargedWords: seq<string>,
                                      url: string, clock: Clock)
    requires sanitize("") == Some("")
    ensures ArticleOutcomeAsWritten(sanitize, url, Html("")) == Raised(TypeError)
    ensures ArticleOutcome(morph, sanitize, chargedWords, url, Html(""), clock)
            == Appended(ArticleRecord(url, "OK", Some(0), Some(0.0)))
  {
    assert Tokens("") == [];
  }

  /** The list main() shares between the tasks; each task appends to it. */
  class ProcessedArticles {
    var items: seq<ArticleRecord>

    /** Every record in the list is well formed. */
    predicate Valid()
      reads this
    {
      forall k :: 0 <= k < |items| ==> items[k].WellFormed()
    }

    constructor ()
      ensures items == [] && Valid()
    {
      items := [];
    }

    /** `processed_articles.append(results)`. */
    method Append(rec: ArticleRecord)
      requires Valid() && rec.WellFormed()
      modifies this
      ensures items == old(items) + [rec] && Valid()
    {
      items := items + [rec];
    }
  }

  /**
   * process_article on one URL: it appends the record of ArticleOutcome, or
   * raises its error and leaves the list as it was.
   */
  method ProcessArticle(morph: Lemmatizer, sanitize: Sanitizer, chargedWords: seq<string>,
                        url: string, response: Response, clock: Clock,
                        processed: ProcessedArticles) returns (raised: Option<Uncaught>)
    requires processed.Valid()
    modifies processed
    ensures processed.Valid()
    ensures match ArticleOutcome(morph, sanitize, chargedWords, url, response, clock)
      case Appended(rec) => raised == None && processed.items == old(processed.items) + [rec]
      case Raised(e) => raised == Some(e) && processed.items == old(processed.items)
  {
    var rec: ArticleRecord;
    var text := ArticleText(sanitize, response);
    if text.None? {
      rec := FetchErrorRecord(url);
    } else {
      var split := SplitByWords(morph, text.value, clock);
      if split.TimedOut? {
        return Some(TimeoutError);
      }
      rec := OkRecord(url, split.words, chargedWords);
    }
    processed.Append(rec);
    return None;
  }

  // ---------------------------------------------------------------------
  // main
  // ---------------------------------------------------------------------

  /** One URL of the batch, with the response fetched for it and the clock its split reads. */
  datatype Job = Job(url: string, response: Response, clock: Clock)

  /** What main() ends with: the list it prints, or the exception that escapes the task group. */
  datatype BatchOutcome = Completed(records: seq<ArticleRecord>) | Aborted(error: Uncaught)

  /** How one job ends: the corrected process_article on the job's inputs. */
  function Runner(morph: Lemmatizer, sanitize: Sanitizer, chargedWords: seq<string>): (run: Job -> JobOutcome)
    ensures forall job :: run(job) == ArticleOutcome(morph, sanitize, chargedWords, job.url, job.response, job.clock)
    ensures RecordsJobUrl(run)
  {
    (job: Job) => ArticleOutcome(morph, sanitize, chargedWords, job.url, job.response, job.clock)
  }

  /** Every record a job appends is well formed and carries the job's URL. */
  ghost predicate RecordsJobUrl(run: Job -> JobOutcome) {
    forall job :: run(job).Appended? ==> run(job).record.url == job.url && run(job).record.WellFormed()
  }

  /**
   * The jobs run one after another: each appends its record, and the first
   * exception stops the batch.
   */
  function BatchResult(run: Job -> JobOutcome, jobs: seq<Job>): (b: BatchOutcome)
    ensures b.Completed? ==> |b.records| == |jobs|
    decreases |jobs|
  {
    if jobs == [] then Completed([])
    else
      var n := |jobs| - 1;
      match BatchResult(run, jobs[..n])
      case Aborted(e) => Aborted(e)
      case Completed(rs) =>
        match run(jobs[n])
        case Appended(rec) => Completed(rs + [rec])
        case Raised(e) => Aborted(e)
  }

  /** A batch completes exactly when no job raises, and then holds one record per job, in job order. */
  lemma {:induction false} BatchCompleted(run: Job -> JobOutcome, jobs: seq<Job>)
    ensures BatchResult(run, jobs).Completed? <==> forall i :: 0 <= i < |jobs| ==> run(jobs[i]).Appended?
    ensures BatchResult(run, jobs).Completed? ==>
            forall i :: 0 <= i < |jobs| ==> BatchResult(run, jobs).records[i] == run(jobs[i]).record
    decreases |jobs|
  {
    if jobs != [] {
      var n := |jobs| - 1;
      BatchCompleted(run, jobs[..n]);
      assert forall i :: 0 <= i < n ==> jobs[..n][i] == jobs[i];
    }
  }

  /** An aborted batch stops at a job that raises, after jobs that all appended. */
  lemma {:induction false} BatchAborted(run: Job -> JobOutcome, jobs: seq<Job>)
    requires BatchResult(run, jobs).Aborted?
    ensures exists i :: (0 <= i < |jobs| && run(jobs[i]) == Raised(BatchResult(run, jobs).error)
                         && forall j :: 0 <= j < i ==> run(jobs[j]).Appended?)
    decreases |jobs|
  {
    var n := |jobs| - 1;
    var e := BatchResult(run, jobs).error;
    assert forall i :: 0 <= i < n ==> jobs[..n][i] == jobs[i];
    if BatchResult(run, jobs[..n]).Aborted? {
      BatchAborted(run, jobs[..n]);
      var i :| 0 <= i < n && run(jobs[..n][i]) == Raised(e)
               && forall j :: 0 <= j < i ==> run(jobs[..n][j]).Appended?;
      assert run(jobs[i]) == Raised(e);
    } else {
      BatchCompleted(run, jobs[..n]);
      assert run(jobs[n]) == Raised(e);
    }
  }

  /** Once the batch has aborted, the jobs after it change nothing. */
  lemma {:induction false} BatchAbortedStays(run: Job -> JobOutcome, jobs: seq<Job>, i: nat)
    requires i <= |jobs|
    requires BatchResult(run, jobs[..i]).Aborted?
    ensures BatchResult(run, jobs) == BatchResult(run, jobs[..i])
    decreases |jobs| - i
  {
    if i < |jobs| {
      assert jobs[..i + 1][..i] == jobs[..i];
      BatchAbortedStays(run, jobs, i + 1);
    } else {
      assert jobs[..i] == jobs;
    }
  }

  /** A completed batch has one well-formed record per job, with the jobs' URLs in order. */
  lemma BatchRecordsFollowUrls(run: Job -> JobOutcome, jobs: seq<Job>)
    requires RecordsJobUrl(run)
    requires BatchResult(run, jobs).Completed?
    ensures var rs := BatchResult(run, jobs).records;
      && |rs| == |jobs|
      && forall i :: 0 <= i < |jobs| ==> rs[i].url == jobs[i].url && rs[i].WellFormed()
  {
    BatchCompleted(run, jobs);
  }

  /** Adding one job: the step of the loop in main(). */
  lemma BatchStep(run: Job -> JobOutcome, jobs: seq<Job>, i: nat)
    requires i < |jobs|
    ensures BatchResult(run, jobs[..i + 1])
            == match BatchResult(run, jobs[..i])
               case Aborted(e) => Aborted(e)
               case Completed(rs) =>
                 match run(jobs[i])
                 case Appended(rec) => Completed(rs + [rec])
                 case Raised(e) => Aborted(e)
  {
    assert jobs[..i + 1][..i] == jobs[..i];
  }

  /**
   * main(): start process_article for every URL on one shared list; the list
   * if every task returns, the first escaping exception otherwise.
   */
  method ProcessBatch(morph: Lemmatizer, sanitize: Sanitizer, chargedWords: seq<string>,
                      jobs: seq<Job>) returns (b: BatchOutcome)
    ensures b == BatchResult(Runner(morph, sanitize, chargedWords), jobs)
  {
    var run := Runner(morph, sanitize, chargedWords);
    var processed := new ProcessedArticles();
    var i := 0;
    while i < |jobs|
      invariant 0 <= i <= |jobs|
      invariant processed.Valid()
      invariant BatchResult(run, jobs[..i]) == Completed(processed.items)
    {
      var job := jobs[i];
      var raised := ProcessArticle(morph, sanitize, chargedWords, job.url, job.response, job.clock, processed);
      BatchStep(run, jobs, i);
      if raised.Some? {
        BatchAbortedStays(run, jobs, i + 1);
        return Aborted(raised.value);
      }
      i := i + 1;
    }
    assert jobs[..i] == jobs;
    return Completed(processed.items);
  }

  /** The jobs of main(): one per test article, in the order of TEST_ARTICLES. */
  predicate ForTestArticles(jobs: seq<Job>) {
    |jobs| == |TestArticles| && forall i :: 0 <= i < |jobs| ==> jobs[i].url == TestArticles[i]
  }

  /** When main() completes, it prints six records, one per test article, in order. */
  lemma MainRecordsFollowTestArticles(morph: Lemmatizer, sanitize: Sanitizer, chargedWords: seq<string>,
                                      jobs: seq<Job>)
    requires ForTestArticles(jobs)
    requires BatchResult(Runner(morph, sanitize, chargedWords), jobs).Completed?
    ensures var rs := BatchResult(Runner(morph, sanitize, chargedWords), jobs).records;
      |rs| == 6 && forall i :: 0 <= i < 6 ==> rs[i].url == TestArticles[i]
  {
    BatchRecordsFollowUrls(Runner(morph, sanitize, chargedWords), jobs);
  }
}
