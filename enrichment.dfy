/**
 * Enrichment (the `__main__` loop building `final_news_list`): each stub that has a url is
 * visited and, when its article is extracted, merged into an enriched article numbered by a
 * counter that starts at 1 and only grows on success. `pageAt(url)` is the page the browser
 * shows after navigating to `url`.
 */
module Enrichment {
  import opened Wrappers
  import opened Seqs
  import opened Feed
  import opened Article

  datatype EnrichedArticle = EnrichedArticle(
    count: int,
    url: string,
    publisher: Option<string>,
    title: Option<string>,
    content: string,
    stocks: seq<string>,
    when: Option<string>,
    author: Option<string>)

  /** `item.get('url')` is truthy: present and non-empty. */
  predicate HasUrl(stub: NewsStub) {
    stub.url.Some? && stub.url.value != ""
  }

  /** The stub reaches the final list: it has a url and its article is extracted. */
  predicate Survives(stub: NewsStub, pageAt: string -> ArticlePage) {
    HasUrl(stub) && ArticleOf(pageAt(stub.url.value)).Extracted?
  }

  function RecordFor(stub: NewsStub, pageAt: string -> ArticlePage): ArticleRecord
    requires Survives(stub, pageAt)
  {
    ArticleOf(pageAt(stub.url.value)).record
  }

  /** The entry built for a surviving stub: url and publisher from the stub, the rest from the article. */
  function Merge(count: int, stub: NewsStub, record: ArticleRecord): EnrichedArticle
    requires HasUrl(stub)
  {
    EnrichedArticle(count, stub.url.value, stub.publisher, record.title, record.content,
                    record.stocks, record.when, record.author)
  }

  /** The final list the loop builds from `stubs` when its counter starts at `first`. */
  function Enriched(stubs: seq<NewsStub>, pageAt: string -> ArticlePage, first: int): seq<EnrichedArticle>
    decreases |stubs|
  {
    if stubs == [] then []
    else if Survives(stubs[0], pageAt) then
      [Merge(first, stubs[0], RecordFor(stubs[0], pageAt))] + Enriched(stubs[1..], pageAt, first + 1)
    else
      Enriched(stubs[1..], pageAt, first)
  }

  /** The stubs that survive, in their original order. */
  function Survivors(stubs: seq<NewsStub>, pageAt: string -> ArticlePage): seq<NewsStub>
    decreases |stubs|
  {
    if stubs == [] then []
    else (if Survives(stubs[0], pageAt) then [stubs[0]] else []) + Survivors(stubs[1..], pageAt)
  }

  /** The survivors keep their relative order. */
  lemma {:induction false} SurvivorsKeepOrder(stubs: seq<NewsStub>, pageAt: string -> ArticlePage)
    ensures IsSubsequence(Survivors(stubs, pageAt), stubs)
    decreases |stubs|
  {
    if stubs != [] {
      SurvivorsKeepOrder(stubs[1..], pageAt);
      if Survives(stubs[0], pageAt) {
        assert ([stubs[0]] + Survivors(stubs[1..], pageAt))[1..] == Survivors(stubs[1..], pageAt);
      } else if Survivors(stubs, pageAt) != [] {
        assert Survivors(stubs, pageAt) == Survivors(stubs[1..], pageAt);
      }
    }
  }

  /** A stub without a url, or whose article is not extracted, contributes nothing; every other stub does. */
  lemma {:induction false} SurvivorsMembers(stubs: seq<NewsStub>, pageAt: string -> ArticlePage)
    ensures forall s :: s in Survivors(stubs, pageAt) <==> s in stubs && Survives(s, pageAt)
    decreases |stubs|
  {
    if stubs != [] {
      SurvivorsMembers(stubs[1..], pageAt);
      assert forall s :: s in stubs <==> s == stubs[0] || s in stubs[1..];
    }
  }

  /**
   * The final list is the survivors, renumbered densely from `first`: entry `k` is built from
   * the `k`-th survivor and carries count `first + k` and that stub's (non-empty) url.
   */
  lemma {:induction false} EnrichedRenumbersSurvivors(stubs: seq<NewsStub>, pageAt: string -> ArticlePage, first: int)
    ensures |Enriched(stubs, pageAt, first)| == |Survivors(stubs, pageAt)|
    ensures forall k :: 0 <= k < |Survivors(stubs, pageAt)| ==>
              Survives(Survivors(stubs, pageAt)[k], pageAt) &&
              Enriched(stubs, pageAt, first)[k] ==
                Merge(first + k, Survivors(stubs, pageAt)[k], RecordFor(Survivors(stubs, pageAt)[k], pageAt))
    ensures forall k :: 0 <= k < |Enriched(stubs, pageAt, first)| ==>
              Enriched(stubs, pageAt, first)[k].count == first + k && Enriched(stubs, pageAt, first)[k].url != ""
    decreases |stubs|
  {
    if stubs != [] {
      EnrichedRenumbersSurvivors(stubs[1..], pageAt, first + 1);
      EnrichedRenumbersSurvivors(stubs[1..], pageAt, first);
    }
  }

  /**
   * The enrichment loop. It skips stubs without a url, visits the others and appends each
   * extracted article under the next count; the result is numbered 1..N and every entry
   * has a non-empty url.
   */
  method EnrichNews(newsList: seq<NewsStub>, pageAt: string -> ArticlePage) returns (finalNews: seq<EnrichedArticle>)
    ensures finalNews == Enriched(newsList, pageAt, 1)
    ensures forall k :: 0 <= k < |finalNews| ==> finalNews[k].count == k + 1 && finalNews[k].url != ""
  {
    finalNews := [];
    var currentFinalCount := 1;
    for i := 0 to |newsList|
      invariant currentFinalCount == |finalNews| + 1
      invariant finalNews + Enriched(newsList[i..], pageAt, currentFinalCount) == Enriched(newsList, pageAt, 1)
    {
      assert newsList[i..][1..] == newsList[i + 1..];
      var item := newsList[i];
      var articleUrl := item.url;
      if articleUrl.None? || articleUrl.value == "" {
        continue;
      }
      var articleInfo := GetFullArticle(pageAt(articleUrl.value));
      if articleInfo.Extracted? {
        var info := articleInfo.record;
        finalNews := finalNews + [EnrichedArticle(currentFinalCount, articleUrl.value, item.publisher,
                                                  info.title, info.content, info.stocks, info.when, info.author)];
        currentFinalCount := currentFinalCount + 1;
      }
    }
    assert newsList[|newsList|..] == [];
    EnrichedRenumbersSurvivors(newsList, pageAt, 1);
  }
}
