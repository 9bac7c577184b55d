/**
 * The `__main__` block as one run: fetch the feed with the login retry, enrich the stubs,
 * let the operator select, and, when something was selected, summarise and render the report.
 * The JSON dumps and file writes are not modelled; the report is returned as text.
 */
module Pipeline {
  import opened Wrappers
  import opened Feed
  import opened Article
  import opened Enrichment
  import opened Selection
  import opened Recovery
  import opened Summaries

  datatype RunResult =
    | InputEndedAtLogin
    | FeedUnavailable(status: int)
    | InputEnded(news: seq<NewsStub>, finalNews: seq<EnrichedArticle>)
    | Completed(
        news: seq<NewsStub>,
        finalNews: seq<EnrichedArticle>,
        selected: seq<EnrichedArticle>,
        summarized: seq<SummarizedArticle>,
        report: Option<string>)

  /**
   * One run. When the first fetch is falsy the login prompt reads one of the operator's
   * lines, and the run ends there when there is none. When the feed is missing twice the run
   * stops with status 1 and nothing else happens; otherwise the stubs of the successful fetch
   * are enriched, selected from with the lines the login prompt left, and, if the selection
   * is non-empty, summarised and rendered. The run ends early when the operator's input runs
   * out during selection.
   */
  method Run(fetchFeed: nat -> Option<seq<NewsStub>>, pageAt: string -> ArticlePage,
             responses: seq<string>, summarize: (Option<string>, string) -> string)
    returns (r: RunResult)
    ensures r.InputEndedAtLogin? <==> !Truthy(fetchFeed(0)) && responses == []
    ensures r.FeedUnavailable? <==> !Truthy(fetchFeed(0)) && responses != [] && !Truthy(fetchFeed(1))
    ensures r.FeedUnavailable? ==> r.status == FeedMissingStatus
    ensures r.InputEnded? || r.Completed? ==>
              && r.news != []
              && Some(r.news) == (if Truthy(fetchFeed(0)) then fetchFeed(0) else fetchFeed(1))
              && r.finalNews == Enriched(r.news, pageAt, 1)
    ensures r.InputEnded? ==>
              Pick(r.finalNews, NormalizeAll(responses[LoginLinesRead(fetchFeed(0), responses)..])) == None
    ensures r.Completed? ==>
              Pick(r.finalNews, NormalizeAll(responses[LoginLinesRead(fetchFeed(0), responses)..])) == Some(r.selected)
    ensures r.Completed? ==> Summarizes(r.summarized, r.selected, summarize)
    ensures r.Completed? ==> (r.report.Some? <==> r.selected != [])
    ensures r.Completed? && r.report.Some? ==> r.report.value == Markdown(r.summarized)
  {
    var availability, _, consumed := FetchWithRecovery(fetchFeed, responses);
    if availability.LoginInputEnded? {
      return InputEndedAtLogin;
    }
    if availability.Exit? {
      return FeedUnavailable(availability.status);
    }
    var newsList := availability.news;
    var finalNewsList := EnrichNews(newsList, pageAt);
    var selectedArticles := UserPickNews(finalNewsList, responses[consumed..]);
    if selectedArticles.None? {
      return InputEnded(newsList, finalNewsList);
    }
    var selected := selectedArticles.value;
    if selected != [] {
      var summarizedArticles := SummarizeArticles(selected, summarize);
      return Completed(newsList, finalNewsList, selected, summarizedArticles, Some(Markdown(summarizedArticles)));
    }
    return Completed(newsList, finalNewsList, selected, [], None);
  }
}
