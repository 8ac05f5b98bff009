/**
 * The second pass: the collected articles are visited in order, at most a
 * fixed number of them; each one whose page yields paragraphs is counted, then
 * summarised and recorded. An article whose summary or record fails is still
 * counted, because the count is raised as soon as text was found.
 */
module Scraping {
  import opened Wrappers
  import opened Text
  import opened Collection

  /** How many articles are visited at most. */
  const MAX_ARTICLES_TO_SAVE: nat := 5
  /** How many sentences the summariser is asked for. */
  const SENTENCES_COUNT: nat := 3

  /** What visiting one article address gives: navigation raised, or the article's paragraphs. */
  datatype Page = GotoFailed | Paragraphs(texts: seq<string>)

  /** One block written to the output file. */
  datatype Record = Record(title: string, url: string, sentences: seq<string>)

  /**
   * The browser maps an address to what visiting it gives; the summariser
   * maps an article's text and a sentence count to its sentences, None when
   * summarising or writing the record raised.
   */
  type Fetch = string -> Page
  type Summarizer = (string, nat) -> Option<seq<string>>

  /** Article text was found: the paragraph selector matched something. */
  predicate TextFound(p: Page) {
    p.Paragraphs? && p.texts != []
  }

  /**
   * `" ".join(text_elements)`: the paragraphs in order, one space between
   * neighbours, so the text opens with the first paragraph.
   */
  function FullText(p: Page): (text: string)
    requires p.Paragraphs?
    ensures p.texts != [] ==> IsPrefix(p.texts[0], text) && |text| == TotalLength(p.texts) + |p.texts| - 1
  {
    Join(" ", p.texts)
  }

  /** Each further paragraph is appended to the text after one space. */
  lemma FullTextSnoc(texts: seq<string>, t: string)
    requires texts != []
    ensures FullText(Paragraphs(texts + [t])) == FullText(Paragraphs(texts)) + " " + t
  {
    JoinSnoc(" ", texts, t);
  }

  function Urls(articles: seq<Article>): (urls: seq<string>)
    ensures |urls| == |articles|
    ensures forall k :: 0 <= k < |articles| ==> urls[k] == articles[k].url
  {
    seq(|articles|, k requires 0 <= k < |articles| => articles[k].url)
  }

  /** How many of `articles` are counted as found: those whose page gives text. */
  function FoundCount(articles: seq<Article>, fetch: Fetch): nat {
    if articles == [] then 0
    else
      FoundCount(articles[..|articles| - 1], fetch)
      + (if TextFound(fetch(articles[|articles| - 1].url)) then 1 else 0)
  }

  /**
   * The record one article yields: one exists exactly when the article's page
   * gives text and the summary of that text succeeds, and it then carries the
   * article's headline and address and the summary's sentences.
   */
  function RecordOf(a: Article, fetch: Fetch, summarize: Summarizer): (rec: Option<Record>)
    ensures rec.Some? <==> TextFound(fetch(a.url)) && summarize(FullText(fetch(a.url)), SENTENCES_COUNT).Some?
    ensures rec.Some? ==>
      && rec.value.title == a.title && rec.value.url == a.url
      && Some(rec.value.sentences) == summarize(FullText(fetch(a.url)), SENTENCES_COUNT)
  {
    var p := fetch(a.url);
    if !TextFound(p) then None
    else
      match summarize(FullText(p), SENTENCES_COUNT)
      case None => None
      case Some(sentences) => Some(Record(a.title, a.url, sentences))
  }

  /** The records written for `articles`, in order. */
  function SavedRecords(articles: seq<Article>, fetch: Fetch, summarize: Summarizer): seq<Record> {
    if articles == [] then []
    else
      SavedRecords(articles[..|articles| - 1], fetch, summarize)
      + match RecordOf(articles[|articles| - 1], fetch, summarize)
        case None => []
        case Some(rec) => [rec]
  }

  /** The number of articles visited: the whole list, or `cap` of them if it is longer. */
  function Attempts(available: nat, cap: nat): nat {
    if available < cap then available else cap
  }

  /**
   * The scraping pass. It visits exactly the first `Attempts(|articles|, cap)`
   * articles, in list order, whatever became of the earlier ones; `found`
   * counts the visited articles whose page gave text, and `records` holds what
   * was written for them.
   */
  method Scrape(articles: seq<Article>, cap: nat, fetch: Fetch, summarize: Summarizer)
    returns (found: nat, visited: seq<string>, records: seq<Record>)
    ensures |visited| == Attempts(|articles|, cap)
    ensures visited == Urls(articles[..|visited|])
    ensures found == FoundCount(articles[..|visited|], fetch)
    ensures records == SavedRecords(articles[..|visited|], fetch, summarize)
    ensures |records| <= found <= |visited| <= cap
  {
    found, visited, records := 0, [], [];
    for i := 0 to |articles|
      invariant i <= cap
      invariant visited == Urls(articles[..i])
      invariant found == FoundCount(articles[..i], fetch)
      invariant records == SavedRecords(articles[..i], fetch, summarize)
    {
      if i >= cap {
        break;
      }
      assert articles[..i + 1][..i] == articles[..i];
      var article := articles[i];
      visited := visited + [article.url];
      var page := fetch(article.url);
      if page.GotoFailed? {
        continue;
      }
      if page.texts == [] {
        continue;
      }
      var fullText := Join(" ", page.texts);
      found := found + 1;
      var summary := summarize(fullText, SENTENCES_COUNT);
      if summary.Some? {
        records := records + [Record(article.title, article.url, summary.value)];
      }
    }
    assert articles[..|articles|] == articles;
    SavedWithinFound(articles[..|visited|], fetch, summarize);
  }

  /** Records are written only for found articles, and never more than were visited. */
  lemma {:induction false} SavedWithinFound(articles: seq<Article>, fetch: Fetch, summarize: Summarizer)
    ensures |SavedRecords(articles, fetch, summarize)| <= FoundCount(articles, fetch) <= |articles|
    decreases |articles|
  {
    if articles != [] {
      SavedWithinFound(articles[..|articles| - 1], fetch, summarize);
    }
  }

  /**
   * Every record written carries the headline and address of one of the
   * articles and the sentences the summariser gave for that article's text.
   */
  lemma {:induction false} SavedRecordsFromArticles(articles: seq<Article>, fetch: Fetch, summarize: Summarizer)
    ensures forall n :: 0 <= n < |SavedRecords(articles, fetch, summarize)| ==>
      exists k :: 0 <= k < |articles| && RecordOf(articles[k], fetch, summarize) == Some(SavedRecords(articles, fetch, summarize)[n])
    decreases |articles|
  {
    if articles != [] {
      var init := articles[..|articles| - 1];
      SavedRecordsFromArticles(init, fetch, summarize);
      var saved := SavedRecords(articles, fetch, summarize);
      var before := SavedRecords(init, fetch, summarize);
      forall n | 0 <= n < |saved|
        ensures exists k :: 0 <= k < |articles| && RecordOf(articles[k], fetch, summarize) == Some(saved[n])
      {
        if n < |before| {
          var k :| 0 <= k < |init| && RecordOf(init[k], fetch, summarize) == Some(before[n]);
          assert articles[k] == init[k];
        } else {
          assert RecordOf(articles[|articles| - 1], fetch, summarize) == Some(saved[n]);
        }
      }
    } else {
      assert SavedRecords(articles, fetch, summarize) == [];
    }
  }

  /** When the summariser never fails, every found article is recorded. */
  lemma {:induction false} AllFoundSavedWhenSummariesSucceed(articles: seq<Article>, fetch: Fetch, summarize: Summarizer)
    requires forall text :: summarize(text, SENTENCES_COUNT).Some?
    ensures |SavedRecords(articles, fetch, summarize)| == FoundCount(articles, fetch)
    decreases |articles|
  {
    if articles != [] {
      AllFoundSavedWhenSummariesSucceed(articles[..|articles| - 1], fetch, summarize);
    }
  }

  /** How many of `articles` have text found but a summary (or its record) that fails. */
  function FailedCount(articles: seq<Article>, fetch: Fetch, summarize: Summarizer): nat {
    if articles == [] then 0
    else
      var p := fetch(articles[|articles| - 1].url);
      FailedCount(articles[..|articles| - 1], fetch, summarize)
      + (if TextFound(p) && summarize(FullText(p), SENTENCES_COUNT).None? then 1 else 0)
  }

  /**
   * The count is raised as soon as text is found, so it exceeds the number of
   * records written by exactly the number of found articles whose summary or
   * record failed.
   */
  lemma {:induction false} CountedDespiteFailedSummary(articles: seq<Article>, fetch: Fetch, summarize: Summarizer)
    ensures FoundCount(articles, fetch) == |SavedRecords(articles, fetch, summarize)| + FailedCount(articles, fetch, summarize)
    decreases |articles|
  {
    if articles != [] {
      CountedDespiteFailedSummary(articles[..|articles| - 1], fetch, summarize);
    }
  }
}
