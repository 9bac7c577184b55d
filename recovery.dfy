/**
 * The login-recovery branch of the `__main__` block: the feed is fetched once and, when the
 * result is falsy, the operator is asked to log in and press Enter, and the feed is fetched
 * once more. `fetchFeed(k)` is what `get_portfolio_news` returns on the `k`-th call (0 for the
 * first); `lines` are the operator's lines on standard input, the same ones the selection
 * prompts later read.
 */
module Recovery {
  import opened Wrappers
  import opened Feed

  /** The exit status of the run when the feed cannot be found twice. */
  const FeedMissingStatus := 1

  /** Python's truthiness of the fetched list: `None` and `[]` are both falsy. */
  predicate Truthy(news: Option<seq<NewsStub>>) {
    news.Some? && news.value != []
  }

  /**
   * The outcome of the branch: proceed with a list, exit with a status, or stop because the
   * login prompt's `input()` met the end of input and raised `EOFError`.
   */
  datatype FeedAvailability = Proceed(news: seq<NewsStub>) | Exit(status: int) | LoginInputEnded

  /** How many operator lines the branch reads: the login prompt's, when it is shown and answered. */
  function LoginLinesRead(first: Option<seq<NewsStub>>, lines: seq<string>): (n: nat)
    ensures n <= |lines|
    ensures n == 1 <==> !Truthy(first) && lines != []
  {
    if Truthy(first) || lines == [] then 0 else 1
  }

  /**
   * Fetches the feed with one retry. A truthy first result proceeds after one fetch and reads
   * no line. A falsy one (`None` or an empty list) shows the login prompt, which reads one
   * line, whatever it holds; with no line left the branch stops there without a retry.
   * Otherwise exactly one retry follows, and a falsy retry exits with status 1.
   */
  method FetchWithRecovery(fetchFeed: nat -> Option<seq<NewsStub>>, lines: seq<string>)
    returns (r: FeedAvailability, fetches: nat, consumed: nat)
    ensures consumed == LoginLinesRead(fetchFeed(0), lines)
    ensures fetches == if Truthy(fetchFeed(0)) || lines == [] then 1 else 2
    ensures r.LoginInputEnded? <==> !Truthy(fetchFeed(0)) && lines == []
    ensures r.Exit? <==> !Truthy(fetchFeed(0)) && lines != [] && !Truthy(fetchFeed(1))
    ensures r.Exit? ==> r.status == FeedMissingStatus
    ensures r.Proceed? ==> r.news != []
    ensures r.Proceed? && Truthy(fetchFeed(0)) ==> Some(r.news) == fetchFeed(0)
    ensures r.Proceed? && !Truthy(fetchFeed(0)) ==> Some(r.news) == fetchFeed(1)
  {
    var newsList := fetchFeed(0);
    fetches, consumed := 1, 0;
    if !Truthy(newsList) {
      if lines == [] {
        return LoginInputEnded, fetches, consumed;
      }
      consumed := 1;
      newsList := fetchFeed(1);
      fetches := 2;
      if !Truthy(newsList) {
        return Exit(FeedMissingStatus), fetches, consumed;
      }
    }
    return Proceed(newsList.value), fetches, consumed;
  }
}
