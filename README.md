# Portfolio news scraper: verified model of the decision logic

This project models the decision logic of `sandbox.py`, a script that scrapes a finance portal's
personalised portfolio news feed. The script:

- scrolls the feed to load more items;
- turns the feed into news stubs;
- visits each stub's article and extracts its fields;
- renumbers the surviving articles densely;
- lets the operator pick articles with `y`/`n`/`q`;
- summarises the picked articles and renders a Markdown report.

The browser, the HTML parser, the summarisation service, the console and the file system are
replaced by abstract inputs:

- the page heights the driver reports (`nat -> int`);
- the parsed feed and article pages as datatypes (`FeedPage`, `ArticlePage`);
- the page shown at each url (`string -> ArticlePage`);
- the result of each feed fetch (`nat -> Option<seq<NewsStub>>`);
- the operator's typed lines (`seq<string>`);
- the summariser (`(Option<string>, string) -> string`).

Modules, one per component of the script:

- `Text`: Python's `strip` and `join`, and `lower` on ASCII letters.
- `Seqs`: the subsequence relation.
- `Scroll`: the infinite-scroll loop.
- `Feed`: the feed stub rules.
- `Article`: article classification and fields.
- `Enrichment`: the re-indexing loop.
- `Selection`: the operator prompt loops.
- `Recovery`: the login retry.
- `Summaries`: summarisation and the Markdown text.
- `Pipeline`: the `__main__` run.

Behaviour of the code that is easy to misread, and that the model keeps:

- An empty feed list triggers the login retry exactly like a missing feed section. The code
  tests `not news_list`, so `[]` is treated like `None`.
- A stub whose url is the empty string is skipped like one without a url.
- Both article failures return `None` in the code. The model keeps the two causes apart
  (`External` when the read-more control is missing, `StructureMismatch` when the article div
  is missing), because the code logs them differently. Enrichment treats both alike.
- The title and byline are read before the article div is checked. This order cannot be
  observed, because a missing div discards them.

## Model

| member | source | states |
|---|---|---|
| `Scroll.ScrollDownInfinite` | sandbox.py:55-64 | At most `attempts` scrolls are issued. No height is unchanged before the last scroll. When fewer than `attempts` scrolls happen, the last one left the height unchanged. `last_height` ends as the most recently observed height. |
| `Feed.StubOf` | sandbox.py:93-122 | `title` and `url` are both `None` exactly when the anchor is absent, and otherwise come from the same anchor. The description is the stripped paragraph text. `publisher` is `None` exactly when the footer or publishing node is missing, and otherwise is the stripped first fragment. `when` is present exactly when there is more than one fragment, and is then the stripped last fragment. |
| `Feed.GetPortfolioNews` | sandbox.py:82-124 | The result is `None` if and only if the news section is absent. Otherwise there is one stub per story item, in order, with `count` equal to the 1-based position. A section with no items therefore gives `[]`. |
| `Article.StockLabelsMembers` | sandbox.py:183-189 | A label is kept exactly when some ticker link carries it and it is non-empty. |
| `Article.StocksInDocumentOrder` | sandbox.py:183-189 | The kept labels are a subsequence of all link labels in document order. |
| `Article.StockLabelsFiltersLabels` | sandbox.py:183-189 | The kept labels are exactly the non-empty link labels in document order, as an independent front-to-back filter computes them. Every non-empty label is kept as many times as links carry it, so repeated labels are not deduplicated. |
| `Article.NonEmptyCounts` | sandbox.py:186-189 | The reference filter keeps every occurrence of each non-empty label and no `""`. |
| `Article.ArticleOf` | sandbox.py:141-199 | A missing read-more control is `External`, whatever else the page holds. Otherwise a missing article div is `StructureMismatch`. Otherwise a record is extracted: content from the div, title from the cover title, and author and when from the byline's author div and `time` tag, each `None` when its element or the byline is missing. `stocks` is `[]` without a carousel and the kept labels with one. |
| `Article.GetFullArticle` | sandbox.py:141-199 | The step-by-step extraction, including the label-appending loop, yields exactly `ArticleOf(page)`. |
| `Enrichment.SurvivorsKeepOrder` | sandbox.py:402-420 | The stubs that reach the final list keep their relative order. |
| `Enrichment.SurvivorsMembers` | sandbox.py:402-420 | A stub reaches the final list exactly when its url is present and non-empty and its article is extracted. A stub without a url, or whose extraction fails, contributes nothing. |
| `Enrichment.EnrichedRenumbersSurvivors` | sandbox.py:399-420 | Entry `k` of the final list is built from the `k`-th surviving stub. It takes url and publisher from the stub and the other fields from the article. Its count is `first + k` and its url is non-empty. |
| `Enrichment.EnrichNews` | sandbox.py:399-420 | The loop with its success-only counter builds exactly the specified final list. Its counts are `1..N` in order and every url is non-empty. |
| `Selection.NormalizedLetter` | sandbox.py:229-232 | A line normalises to a letter `c` exactly when it holds one character that lower-cases to `c`, with only whitespace around it. |
| `Selection.InvalidResponsesIgnored` | sandbox.py:228-246 | Invalid lines are consumed without deciding or advancing. The selection equals the one made from the valid answers alone. |
| `Selection.DecideCharacterized` | sandbox.py:214-246 | Given valid answers, the result depends on where the first `q` falls. If `q` answers article `q`, the result is the `y`-answered articles before it. If every article is answered first, it is the `y`-answered articles. If the answers run out first, there is none. |
| `Selection.SelectionCharacterized` | sandbox.py:211-248 | The same characterisation in terms of the raw operator lines. In particular nothing from the `q` article onward is selected. |
| `Selection.SelectionIsSubsequence` | sandbox.py:211-248 | The selection is a subsequence of `final_news_list`, so original order is kept and nothing is added. |
| `Selection.KeptIsSubsequence` | sandbox.py:234-240 | The `y`-answered articles form a subsequence of the articles. |
| `Selection.PromptForAnswer` | sandbox.py:228-246 | The re-prompt loop returns the first line at or after `pos` that normalises to `y`, `n` or `q`, and the position after it. Every line it skipped was invalid. It returns `None` only when the lines run out. |
| `Selection.PickSkipsInvalid` | sandbox.py:245-246 | Skipping invalid lines does not change the selection that follows. |
| `Selection.UserPickNews` | sandbox.py:211-248 | The loop over the articles with `skip_all`, together with the re-prompt loop, returns exactly `Pick` of the normalised lines. That is `None` when input ends while an answer is awaited. |
| `Recovery.FetchWithRecovery` | sandbox.py:378-391 | A truthy first fetch proceeds with that list after one fetch and reads no operator line. A falsy first fetch, `None` or `[]`, shows the login prompt, which reads one line whatever it holds. With no line left the branch stops there, after one fetch. Otherwise exactly one retry follows. A truthy retry proceeds with the retry's list. A falsy retry exits with status 1. A proceeding list is never empty. |
| `Summaries.SummarizeArticles` | sandbox.py:303-320 | There is one output per input, in order. Each output copies `count` and the other metadata unchanged and carries the summary of the article's title and content. |
| `Summaries.OrDefault` | sandbox.py:330-336 | A field renders as its value when present and non-empty. A missing or empty field renders as the default, for example "Untitled" or "Unknown Date". |
| `Summaries.SectionFrame` | sandbox.py:338-350 | Each article's section opens with `## <title or Untitled>` and closes with the `---` rule. |
| `Summaries.SectionsAppend` | sandbox.py:329-350 | The sections of concatenated article lists are the concatenated sections. |
| `Summaries.MarkdownLayout` | sandbox.py:328-350 | The report is the `# Summarized Articles` header followed by exactly one section per article, in order. |
| `Text.StripTrims` | sandbox.py:232 | `strip` returns a contiguous slice that neither starts nor ends with whitespace. Everything it cuts off is whitespace. |
| `Pipeline.Run` | sandbox.py:374-456 | If the first fetch is falsy and the operator's input is already exhausted, the run ends at the login prompt. If the feed is missing twice, the run exits with status 1 and nothing else runs. Otherwise the list from the successful fetch is enriched and the operator selects from the result, using the lines the login prompt left. If the selection is non-empty it is summarised and rendered; otherwise no report is produced. |

## Left out

- Selenium, Chrome options, navigation, clicking and `execute_script`. Only their observable results are modelled: heights, the presence of the read-more control, and parsed pages.
- BeautifulSoup parsing and CSS-class matching. These are replaced by the `FeedPage` and `ArticlePage` datatypes, whose text fields are the text the parser would return.
- `time.sleep` waits, because they only affect timing.
- `call_deepseek`, the HTTP request and the response JSON. `summarize_article` is the function parameter `summarize`. A failing request (`raise_for_status` raising) aborts the script before the summaries and the report are written; that failure is not modelled, and `Pipeline.Run` always produces a report for a non-empty selection.
- The coloured console output, because it is output only. The login prompt's text is output only too, but the line it reads is modelled: it uses up one of the operator's lines, and its `EOFError` ends the run (`InputEndedAtLogin`).
- The JSON dumps, the timestamped output directory and the file writes. The Markdown content is modelled as a string; the write is not.
- `driver.quit()`, and `exit(1)` as a side effect. The exit is the result value `FeedUnavailable(1)`.
- `Feed.GetPortfolioNews`: requires every publishing node to have at least one fragment. The story items are read from a prettified re-parse of the section, which normally gives every element at least a whitespace fragment, so the parser does not normally produce the excluded case. A node with no fragment at all would make `publisher_tag.contents[0]` raise `IndexError`, and that case is not modelled.
- The anchor's `href` is always present in the model. A labelled anchor without `href` raises `KeyError` in the script.
- `Text.Lower` maps only ASCII letters. Python lower-cases all of Unicode, but no non-ASCII character lower-cases to `y`, `n` or `q`, so the selection is unaffected.
- `Pipeline.Run`: the feed fetches are the parameter `fetchFeed`, which is not tied to `Feed.GetPortfolioNews` or to the scroll loop, so the run's stubs need not be numbered `1..n`. What a fetch returns for a given page is stated separately by `Feed.GetPortfolioNews`.
- `Selection.UserPickNews`: end of input, where `input()` raises `EOFError`, is the result `None`. An operator who never answers validly is a finite list of lines that runs out.
