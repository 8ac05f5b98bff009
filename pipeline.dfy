/**
 * One run of the scraper: read the topic, load the search page, filter its
 * results, then scrape the kept articles. The script's three deliberate exits
 * become outcomes of their own, and so does a failure while loading the
 * search page, which nothing in the script catches.
 */
module Pipeline {
  import opened Wrappers
  import opened Naming
  import opened Collection
  import opened Scraping

  /**
   * What loading the search page gives: a failure (navigation raised, or the
   * search field could not be found), or the echoed topic (absent if the
   * field has no value) and the listed results.
   */
  datatype SearchPage =
    | LoadFailed
    | Loaded(corrected: Option<string>, results: seq<SearchResult>)

  datatype RunOutcome =
    | NoTopic                   // the user entered nothing
    | SearchFailed              // loading the search page raised, ending the run
    | NoSearchResults           // the search page listed nothing
    | NothingRelevant           // no listed result passed the filter
    | Finished(outputFile: string, relevant: seq<Article>, found: nat, visited: seq<string>, records: seq<Record>)

  /**
   * A run for the topic `userTopic`. The search page is loaded at the topic's
   * search address; `join` resolves each link against that address; `fetch`
   * visits an article address; `summarize` summarises an article's text.
   */
  method Run(userTopic: string, load: string -> SearchPage, join: (string, string) -> Option<string>,
             fetch: Fetch, summarize: Summarizer)
    returns (outcome: RunOutcome)
    ensures userTopic == [] <==> outcome == NoTopic
    ensures outcome == SearchFailed <==> userTopic != [] && load(SearchUrl(userTopic)).LoadFailed?
    ensures outcome == NoSearchResults <==>
      userTopic != [] && load(SearchUrl(userTopic)).Loaded? && load(SearchUrl(userTopic)).results == []
    ensures outcome == NothingRelevant <==>
      && userTopic != []
      && load(SearchUrl(userTopic)).Loaded?
      && load(SearchUrl(userTopic)).results != []
      && forall j :: 0 <= j < |load(SearchUrl(userTopic)).results| ==>
           Examine(load(SearchUrl(userTopic)).results[j],
                   Query(userTopic, load(SearchUrl(userTopic)).corrected, SearchUrl(userTopic), join)).None?
    ensures outcome.Finished? ==>
      var page := load(SearchUrl(userTopic));
      && page.Loaded?
      && outcome.outputFile == OutputFilename(userTopic)
      && outcome.relevant == Collected(page.results, Query(userTopic, page.corrected, SearchUrl(userTopic), join))
      && outcome.relevant != []
      && |outcome.visited| == Attempts(|outcome.relevant|, MAX_ARTICLES_TO_SAVE)
      && outcome.visited == Urls(outcome.relevant[..|outcome.visited|])
      && outcome.found == FoundCount(outcome.relevant[..|outcome.visited|], fetch)
      && outcome.records == SavedRecords(outcome.relevant[..|outcome.visited|], fetch, summarize)
      && |outcome.records| <= outcome.found <= |outcome.visited| <= MAX_ARTICLES_TO_SAVE
  {
    if userTopic == [] {
      return NoTopic;
    }
    var searchUrl := SearchUrl(userTopic);
    var outputFile := OutputFilename(userTopic);
    var page := load(searchUrl);
    if page.LoadFailed? {
      return SearchFailed;
    }
    if page.results == [] {
      return NoSearchResults;
    }
    var q := Query(userTopic, page.corrected, searchUrl, join);
    var relevant := Collect(page.results, q);
    CollectedEmptyIff(page.results, q);
    if relevant == [] {
      return NothingRelevant;
    }
    var found, visited, records := Scrape(relevant, MAX_ARTICLES_TO_SAVE, fetch, summarize);
    outcome := Finished(outputFile, relevant, found, visited, records);
  }
}
