/**
 * List extraction (`get_portfolio_news`): turns the parsed portfolio page into news stubs.
 * The HTML parser is replaced by the structure it would find: the `port-news` section, if
 * any, and in it the `storyitem` sections in document order.
 */
module Feed {
  import opened Wrappers
  import opened Text

  /** The first `<a aria-label=...>` of a story item. */
  datatype Anchor = Anchor(ariaLabel: string, href: string)

  /** The `footer` div of a story item; `publishing` holds the `.contents` of its `publishing` div. */
  datatype Footer = Footer(publishing: Option<seq<string>>)

  /** One `storyitem` section; `description` is the text of its `p.clamp`. */
  datatype StoryItem = StoryItem(anchor: Option<Anchor>, description: Option<string>, footer: Option<Footer>)

  /** The loaded feed page; `newsSection` is `None` when the `port-news` section is absent. */
  datatype FeedPage = FeedPage(newsSection: Option<seq<StoryItem>>)

  /** One feed entry as the scraper records it. */
  datatype NewsStub = NewsStub(
    count: int,
    title: Option<string>,
    description: Option<string>,
    url: Option<string>,
    publisher: Option<string>,
    when: Option<string>)

  /** `publisher_tag.contents[0]` exists: an empty publishing node makes the source raise. */
  predicate PublishingReadable(item: StoryItem) {
    item.footer.Some? && item.footer.value.publishing.Some? ==> |item.footer.value.publishing.value| > 0
  }

  predicate WellFormedFeed(page: FeedPage) {
    page.newsSection.Some? ==>
      forall i :: 0 <= i < |page.newsSection.value| ==> PublishingReadable(page.newsSection.value[i])
  }

  /** The fragments of the publishing node, when both the footer and that node are present. */
  function Fragments(item: StoryItem): Option<seq<string>> {
    match item.footer
    case None => None
    case Some(footer) => footer.publishing
  }

  /** The publisher: the first fragment of the publishing node, stripped. */
  function PublisherOf(fragments: Option<seq<string>>): Option<string>
    requires fragments.Some? ==> |fragments.value| > 0
  {
    match fragments
    case None => None
    case Some(contents) => Some(Strip(contents[0]))
  }

  /** The timestamp: the last fragment, stripped, only when there is more than one fragment. */
  function WhenOf(fragments: Option<seq<string>>): Option<string> {
    match fragments
    case Some(contents) => if |contents| > 1 then Some(Strip(contents[|contents| - 1])) else None
    case None => None
  }

  /** The field rules for the story item at 1-based position `count`. */
  function StubOf(item: StoryItem, count: int): (s: NewsStub)
    requires PublishingReadable(item)
    ensures s.count == count
    ensures s.title.None? <==> item.anchor.None?
    ensures s.url.None? <==> item.anchor.None?
    ensures item.anchor.Some? ==> s.title == Some(item.anchor.value.ariaLabel) && s.url == Some(item.anchor.value.href)
    ensures s.description.None? <==> item.description.None?
    ensures item.description.Some? ==> s.description == Some(Strip(item.description.value))
    ensures s.publisher.None? <==> Fragments(item).None?
    ensures Fragments(item).Some? ==> s.publisher == Some(Strip(Fragments(item).value[0]))
    ensures s.when.Some? <==> Fragments(item).Some? && |Fragments(item).value| > 1
    ensures s.when.Some? ==> s.when.value == Strip(Fragments(item).value[|Fragments(item).value| - 1])
  {
    var title := match item.anchor case Some(a) => Some(a.ariaLabel) case None => None;
    var url := match item.anchor case Some(a) => Some(a.href) case None => None;
    var description := match item.description case Some(d) => Some(Strip(d)) case None => None;
    NewsStub(count, title, description, url, PublisherOf(Fragments(item)), WhenOf(Fragments(item)))
  }

  /**
   * `get_portfolio_news` after scrolling: `None` exactly when the news section is absent,
   * otherwise one stub per story item, in order, numbered from 1.
   */
  method GetPortfolioNews(page: FeedPage) returns (news: Option<seq<NewsStub>>)
    requires WellFormedFeed(page)
    ensures news.None? <==> page.newsSection.None?
    ensures news.Some? ==> |news.value| == |page.newsSection.value|
    ensures news.Some? ==> forall i :: 0 <= i < |news.value| ==>
              news.value[i] == StubOf(page.newsSection.value[i], i + 1) && news.value[i].count == i + 1
  {
    if page.newsSection.None? {
      return None;
    }
    var items := page.newsSection.value;
    var newsList: seq<NewsStub> := [];
    var i := 0;
    while i < |items|
      invariant 0 <= i <= |items|
      invariant |newsList| == i
      invariant forall j :: 0 <= j < i ==> newsList[j] == StubOf(items[j], j + 1)
    {
      newsList := newsList + [StubOf(items[i], i + 1)];
      i := i + 1;
    }
    return Some(newsList);
  }
}
