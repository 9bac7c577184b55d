/**
 * Summarisation (`summarize_articles`) and the Markdown report (`save_summaries_to_markdown`).
 * The remote summariser is the function `summarize(title, content)`; the report is the text
 * the function would write to the file.
 */
module Summaries {
  import opened Wrappers
  import opened Text
  import opened Enrichment

  datatype SummarizedArticle = SummarizedArticle(
    count: int,
    title: Option<string>,
    when: Option<string>,
    publisher: Option<string>,
    author: Option<string>,
    stocks: seq<string>,
    url: string,
    summary: string)

  /** `out` carries the metadata of `a` unchanged. */
  predicate CopiesMetadata(out: SummarizedArticle, a: EnrichedArticle) {
    && out.count == a.count && out.title == a.title && out.when == a.when
    && out.publisher == a.publisher && out.author == a.author
    && out.stocks == a.stocks && out.url == a.url
  }

  /**
   * `out` is `selected` summarised: one entry per article, in order, each with the article's
   * metadata (its `count` included) and the summary of its title and content.
   */
  predicate Summarizes(out: seq<SummarizedArticle>, selected: seq<EnrichedArticle>,
                       summarize: (Option<string>, string) -> string)
  {
    && |out| == |selected|
    && forall i :: 0 <= i < |selected| ==>
         CopiesMetadata(out[i], selected[i]) && out[i].summary == summarize(selected[i].title, selected[i].content)
  }

  /** `summarize_articles`, calling the summariser once per article in order. */
  method SummarizeArticles(selected: seq<EnrichedArticle>, summarize: (Option<string>, string) -> string)
    returns (summarized: seq<SummarizedArticle>)
    ensures Summarizes(summarized, selected, summarize)
  {
    summarized := [];
    for idx := 0 to |selected|
      invariant |summarized| == idx
      invariant forall i :: 0 <= i < idx ==>
                  CopiesMetadata(summarized[i], selected[i]) &&
                  summarized[i].summary == summarize(selected[i].title, selected[i].content)
    {
      var article := selected[idx];
      var summaryText := summarize(article.title, article.content);
      summarized := summarized + [SummarizedArticle(article.count, article.title, article.when, article.publisher,
                                                    article.author, article.stocks, article.url, summaryText)];
    }
  }

  const MarkdownHeader := "# Summarized Articles\n\n"
  const SectionRule := "---\n\n"

  /** Python's `value or default` on an optional string: `None` and `""` both give the default. */
  function OrDefault(field: Option<string>, default: string): (r: string)
    ensures field.Some? && field.value != "" ==> r == field.value
    ensures field.None? || field.value == "" ==> r == default
  {
    match field
    case Some(v) => if v != "" then v else default
    case None => default
  }

  /** The related-stocks text: the tickers joined by ", ", or "None" when there are none. */
  function StocksText(stocks: seq<string>): string {
    if stocks != [] then Join(stocks, ", ") else "None"
  }

  /** The original-article line: a link to a non-empty url, or "None". */
  function OriginalArticleLine(url: string): string {
    if url != "" then "- **Original Article**: [" + url + "](" + url + ")\n\n"
    else "- **Original Article**: None\n\n"
  }

  /** The heading line of one article's section, with its default title. */
  function SectionHeading(a: SummarizedArticle): string {
    "## " + OrDefault(a.title, "Untitled") + "\n\n"
  }

  /** Everything of a section between its heading and its closing rule. */
  function SectionBody(a: SummarizedArticle): string {
    "- **Date**: " + OrDefault(a.when, "Unknown Date") + "\n"
    + "- **Publisher**: " + OrDefault(a.publisher, "Unknown Publisher") + "\n"
    + "- **Author**: " + OrDefault(a.author, "Unknown Author") + "\n"
    + "- **Related Stocks**: " + StocksText(a.stocks) + "\n"
    + OriginalArticleLine(a.url)
    + "**Summary**:\n\n"
    + a.summary + "\n\n"
  }

  /** One article's section: heading, metadata lines, summary, closing rule. */
  function Section(a: SummarizedArticle): string {
    SectionHeading(a) + SectionBody(a) + SectionRule
  }

  /** Each section opens with the `## title` heading and closes with the `---` rule. */
  lemma SectionFrame(a: SummarizedArticle)
    ensures |SectionHeading(a)| + |SectionRule| <= |Section(a)|
    ensures Section(a)[..|SectionHeading(a)|] == SectionHeading(a)
    ensures Section(a)[|Section(a)| - |SectionRule|..] == SectionRule
  {
    var h, b := SectionHeading(a), SectionBody(a);
    assert Section(a) == h + (b + SectionRule);
  }

  /** The sections of all the articles, in order. */
  function Sections(articles: seq<SummarizedArticle>): string
    decreases |articles|
  {
    if articles == [] then "" else Section(articles[0]) + Sections(articles[1..])
  }

  /** The whole report as written to the Markdown file. */
  function Markdown(articles: seq<SummarizedArticle>): string {
    MarkdownHeader + Sections(articles)
  }

  /** The sections of a concatenation are the concatenation of the sections. */
  lemma {:induction false} SectionsAppend(xs: seq<SummarizedArticle>, ys: seq<SummarizedArticle>)
    ensures Sections(xs + ys) == Sections(xs) + Sections(ys)
    decreases |xs|
  {
    if xs == [] {
      assert xs + ys == ys;
    } else {
      assert (xs + ys)[0] == xs[0] && (xs + ys)[1..] == xs[1..] + ys;
      SectionsAppend(xs[1..], ys);
      ConcatAssoc(Section(xs[0]), Sections(xs[1..]), Sections(ys));
    }
  }

  /**
   * The report is the header followed by exactly one section per article in order: article
   * `k`'s section sits between the sections of the articles before it and after it.
   */
  lemma {:induction false} MarkdownLayout(articles: seq<SummarizedArticle>, k: nat)
    requires k < |articles|
    ensures Markdown(articles) ==
              MarkdownHeader + Sections(articles[..k]) + Section(articles[k]) + Sections(articles[k + 1..])
  {
    var tail := articles[k..];
    assert articles == articles[..k] + tail;
    SectionsAppend(articles[..k], tail);
    assert tail[0] == articles[k] && tail[1..] == articles[k + 1..];
    assert Sections(tail) == Section(articles[k]) + Sections(articles[k + 1..]);
    ConcatRegroup(MarkdownHeader, Sections(articles[..k]), Section(articles[k]), Sections(articles[k + 1..]));
  }

  lemma ConcatAssoc(a: string, b: string, c: string)
    ensures a + (b + c) == a + b + c
  {
  }

  lemma ConcatRegroup(a: string, b: string, c: string, d: string)
    ensures a + (b + (c + d)) == a + b + c + d
  {
  }
}
