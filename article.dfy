/**
 * Article extraction (`get_full_article`): classifies one article page and reads its fields.
 * The browser and the HTML parser are replaced by what they would find on the page after
 * navigation: whether the "story continues" control exists, and the parsed elements.
 */
module Article {
  import opened Wrappers
  import opened Seqs

  /** The `byline-attr` div: the text of its author div and of its `time` tag, when present. */
  datatype Byline = Byline(author: Option<string>, time: Option<string>)

  /** One `ticker-container` link of the carousel, with its `aria-label` attribute if it has one. */
  datatype TickerLink = TickerLink(ariaLabel: Option<string>)

  /**
   * The article page: `readMore` tells whether the read-more button was found; the other
   * fields are the parsed elements (the cover title, the byline, the text of the
   * `article` div and the ticker carousel), each `None` when absent.
   */
  datatype ArticlePage = ArticlePage(
    readMore: bool,
    coverTitle: Option<string>,
    byline: Option<Byline>,
    articleText: Option<string>,
    carousel: Option<seq<TickerLink>>)

  datatype ArticleRecord = ArticleRecord(
    title: Option<string>,
    author: Option<string>,
    when: Option<string>,
    content: string,
    stocks: seq<string>)

  /**
   * The outcome of visiting one article. The source returns `None` for both failures and only
   * logs them differently: no read-more control means an external article, no article div
   * means the page does not have the expected structure.
   */
  datatype Extraction = External | StructureMismatch | Extracted(record: ArticleRecord)

  /** The value of `link.get('aria-label')` as a string, `""` when the attribute is missing. */
  function LabelText(link: TickerLink): string {
    match link.ariaLabel
    case Some(text) => text
    case None => ""
  }

  /** Every link's label in document order, missing ones as `""`. */
  function AllLabels(links: seq<TickerLink>): (r: seq<string>)
    ensures |r| == |links|
    decreases |links|
  {
    if links == [] then [] else AllLabels(links[..|links| - 1]) + [LabelText(links[|links| - 1])]
  }

  /** The labels that the stock loop keeps: the truthy (present and non-empty) ones, in order. */
  function StockLabels(links: seq<TickerLink>): seq<string>
    decreases |links|
  {
    if links == [] then []
    else
      var rest := StockLabels(links[..|links| - 1]);
      if LabelText(links[|links| - 1]) != "" then rest + [LabelText(links[|links| - 1])] else rest
  }

  /** The kept labels are exactly the non-empty labels some link carries. */
  lemma {:induction false} StockLabelsMembers(links: seq<TickerLink>)
    ensures forall s :: s in StockLabels(links) <==>
              s != "" && exists j :: 0 <= j < |links| && links[j].ariaLabel == Some(s)
    decreases |links|
  {
    if links != [] {
      var init := links[..|links| - 1];
      StockLabelsMembers(init);
      forall s
        ensures s in StockLabels(links) <==> s != "" && exists j :: 0 <= j < |links| && links[j].ariaLabel == Some(s)
      {
        if s != "" && (exists j :: 0 <= j < |links| && links[j].ariaLabel == Some(s)) {
          var j :| 0 <= j < |links| && links[j].ariaLabel == Some(s);
          if j < |links| - 1 {
            assert init[j] == links[j];
          }
        }
        if s in StockLabels(init) {
          var j :| 0 <= j < |init| && init[j].ariaLabel == Some(s);
          assert links[j] == init[j];
        }
      }
    }
  }

  /** The kept labels appear in document order: they are a subsequence of all the labels. */
  lemma {:induction false} StocksInDocumentOrder(links: seq<TickerLink>)
    ensures IsSubsequence(StockLabels(links), AllLabels(links))
    decreases |links|
  {
    if links != [] {
      var init := links[..|links| - 1];
      var last := LabelText(links[|links| - 1]);
      StocksInDocumentOrder(init);
      if last != "" {
        SubsequenceSnoc(StockLabels(init), AllLabels(init), last);
      } else {
        SubsequenceOfLonger(StockLabels(init), AllLabels(init), [last]);
      }
    }
  }

  /**
   * An independent reference for the stock loop: the non-empty strings of `labels`, in order,
   * each occurrence kept, filtered from the front.
   */
  function NonEmpty(labels: seq<string>): seq<string>
    decreases |labels|
  {
    if labels == [] then []
    else (if labels[0] != "" then [labels[0]] else []) + NonEmpty(labels[1..])
  }

  lemma {:induction false} NonEmptySnoc(labels: seq<string>, s: string)
    ensures NonEmpty(labels + [s]) == NonEmpty(labels) + (if s != "" then [s] else [])
    decreases |labels|
  {
    if labels == [] {
      assert [] + [s] == [s];
      assert [s][1..] == [];
    } else {
      assert (labels + [s])[0] == labels[0];
      assert (labels + [s])[1..] == labels[1..] + [s];
      NonEmptySnoc(labels[1..], s);
    }
  }

  /** Filtering keeps every occurrence of every non-empty string and drops every `""`. */
  lemma {:induction false} NonEmptyCounts(labels: seq<string>)
    ensures forall s :: s != "" ==> multiset(NonEmpty(labels))[s] == multiset(labels)[s]
    ensures multiset(NonEmpty(labels))[""] == 0
    decreases |labels|
  {
    if labels != [] {
      NonEmptyCounts(labels[1..]);
      assert labels == [labels[0]] + labels[1..];
    }
  }

  /**
   * The stock loop keeps exactly the non-empty labels of the links, in document order and
   * with repetitions: a label carried by two links is kept twice.
   */
  lemma {:induction false} StockLabelsFiltersLabels(links: seq<TickerLink>)
    ensures StockLabels(links) == NonEmpty(AllLabels(links))
    ensures forall s :: s != "" ==> multiset(StockLabels(links))[s] == multiset(AllLabels(links))[s]
    decreases |links|
  {
    if links != [] {
      var init := links[..|links| - 1];
      StockLabelsFiltersLabels(init);
      NonEmptySnoc(AllLabels(init), LabelText(links[|links| - 1]));
    }
    NonEmptyCounts(AllLabels(links));
  }

  /** The byline's author, `None` when the byline or its author div is missing. */
  function AuthorOf(byline: Option<Byline>): Option<string> {
    match byline
    case Some(b) => b.author
    case None => None
  }

  /** The byline's time text, `None` when the byline or its `time` tag is missing. */
  function PublishedWhenOf(byline: Option<Byline>): Option<string> {
    match byline
    case Some(b) => b.time
    case None => None
  }

  /**
   * What `get_full_article` yields for a page. The read-more control is checked first, so a
   * page without it is external whatever else it holds; then a missing article div is a
   * structure mismatch; otherwise every field is read independently of the others.
   */
  function ArticleOf(page: ArticlePage): (r: Extraction)
    ensures r.External? <==> !page.readMore
    ensures r.StructureMismatch? <==> page.readMore && page.articleText.None?
    ensures r.Extracted? <==> page.readMore && page.articleText.Some?
    ensures r.Extracted? ==> r.record.content == page.articleText.value
    ensures r.Extracted? ==> r.record.title == page.coverTitle
    ensures r.Extracted? && page.byline.None? ==> r.record.author.None? && r.record.when.None?
    ensures r.Extracted? && page.byline.Some? ==>
              r.record.author == page.byline.value.author && r.record.when == page.byline.value.time
    ensures r.Extracted? && page.carousel.None? ==> r.record.stocks == []
    ensures r.Extracted? && page.carousel.Some? ==> r.record.stocks == StockLabels(page.carousel.value)
  {
    if !page.readMore then External
    else if page.articleText.None? then StructureMismatch
    else
      var stocks := match page.carousel case Some(links) => StockLabels(links) case None => [];
      Extracted(ArticleRecord(page.coverTitle, AuthorOf(page.byline), PublishedWhenOf(page.byline),
                              page.articleText.value, stocks))
  }

  /** `get_full_article` on the page the browser shows for the article, step by step. */
  method GetFullArticle(page: ArticlePage) returns (r: Extraction)
    ensures r == ArticleOf(page)
  {
    if !page.readMore {
      return External;
    }
    var title := page.coverTitle;
    var author, when := None, None;
    if page.byline.Some? {
      author := page.byline.value.author;
      when := page.byline.value.time;
    }
    if page.articleText.None? {
      return StructureMismatch;
    }
    var content := page.articleText.value;
    var stocks: seq<string> := [];
    if page.carousel.Some? {
      var links := page.carousel.value;
      var i := 0;
      while i < |links|
        invariant 0 <= i <= |links|
        invariant stocks == StockLabels(links[..i])
      {
        var ariaLabel := links[i].ariaLabel;
        if ariaLabel.Some? && ariaLabel.value != "" {
          stocks := stocks + [ariaLabel.value];
        }
        i := i + 1;
        assert links[..i][..i - 1] == links[..i - 1];
      }
      assert links[..i] == links;
    }
    return Extracted(ArticleRecord(title, author, when, content, stocks));
  }
}
