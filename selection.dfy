/**
 * Operator selection (`user_pick_news`). The console is replaced by the sequence of lines the
 * operator types; each line is stripped and lower-cased. `y` keeps the shown article, `n`
 * skips it, `q` skips it and every remaining one, anything else asks again for the same
 * article. When the lines run out while an answer is awaited, `input()` raises and no
 * selection is returned (`None`).
 */
module Selection {
  import opened Wrappers
  import opened Text
  import opened Seqs
  import opened Enrichment

  /** `input(...).strip().lower()`. */
  function Normalize(response: string): string {
    Lower(Strip(response))
  }

  /**
   * A line normalises to the single letter `c` exactly when it holds one character that
   * lower-cases to `c` (`c` itself or its capital), with only whitespace around it.
   */
  lemma NormalizedLetter(response: string, c: char)
    requires 'a' <= c <= 'z'
    ensures Normalize(response) == [c] <==>
            exists i :: 0 <= i < |response| && AllSpace(response[..i]) && LowerChar(response[i]) == c &&
                        AllSpace(response[i + 1..])
  {
    StripTrims(response);
    if Normalize(response) == [c] {
      var i :| 0 <= i <= |response| - |Strip(response)| && Strip(response) == response[i..i + |Strip(response)|] &&
               AllSpace(response[..i]) && AllSpace(response[i + |Strip(response)|..]);
      assert |Strip(response)| == 1;
      assert LowerChar(response[i]) == Lower(Strip(response))[0];
    }
    if exists i :: 0 <= i < |response| && AllSpace(response[..i]) && LowerChar(response[i]) == c &&
                   AllSpace(response[i + 1..]) {
      var i :| 0 <= i < |response| && AllSpace(response[..i]) && LowerChar(response[i]) == c &&
               AllSpace(response[i + 1..]);
      StripLeadingStopsAt(response, i);
      var rest := response[i..];
      assert rest[1..] == response[i + 1..];
      StripTrailingStopsAt(rest, 1);
      assert Strip(response) == [response[i]];
    }
  }

  /** The operator's lines as the prompt loop compares them. */
  function NormalizeAll(responses: seq<string>): seq<string> {
    seq(|responses|, k requires 0 <= k < |responses| => Normalize(responses[k]))
  }

  predicate IsAnswer(a: string) {
    a == "y" || a == "n" || a == "q"
  }

  /** `p` followed by the selection `o`, if there is one. */
  function Prefixed(p: seq<EnrichedArticle>, o: Option<seq<EnrichedArticle>>): Option<seq<EnrichedArticle>> {
    match o
    case Some(s) => Some(p + s)
    case None => None
  }

  lemma PrefixedEmpty(o: Option<seq<EnrichedArticle>>)
    ensures Prefixed([], o) == o
  {
    if o.Some? {
      assert [] + o.value == o.value;
    }
  }

  lemma PrefixedTwice(p: seq<EnrichedArticle>, p': seq<EnrichedArticle>, o: Option<seq<EnrichedArticle>>)
    ensures Prefixed(p, Prefixed(p', o)) == Prefixed(p + p', o)
  {
    if o.Some? {
      assert p + (p' + o.value) == (p + p') + o.value;
    }
  }

  /** The selection the prompt loop makes from the normalised lines, one line at a time. */
  function Pick(articles: seq<EnrichedArticle>, lines: seq<string>): Option<seq<EnrichedArticle>>
    decreases |lines|
  {
    if articles == [] then Some([])
    else if lines == [] then None
    else if lines[0] == "y" then Prefixed([articles[0]], Pick(articles[1..], lines[1..]))
    else if lines[0] == "n" then Pick(articles[1..], lines[1..])
    else if lines[0] == "q" then Some([])
    else Pick(articles, lines[1..])
  }

  /** The valid answers among the lines, in the order they were typed. */
  function Answers(lines: seq<string>): (r: seq<string>)
    ensures forall i :: 0 <= i < |r| ==> IsAnswer(r[i])
    decreases |lines|
  {
    if lines == [] then []
    else if IsAnswer(lines[0]) then [lines[0]] + Answers(lines[1..])
    else Answers(lines[1..])
  }

  /** The position of the first `q` among the answers, or `|answers|` when there is none. */
  function FirstQuit(answers: seq<string>): (k: nat)
    ensures k <= |answers|
    ensures k < |answers| ==> answers[k] == "q"
    ensures forall i :: 0 <= i < k ==> answers[i] != "q"
    decreases |answers|
  {
    if answers == [] then 0
    else if answers[0] == "q" then 0
    else 1 + FirstQuit(answers[1..])
  }

  /** The articles whose answer (at the same position) is `y`, in order. */
  function Kept(articles: seq<EnrichedArticle>, answers: seq<string>): seq<EnrichedArticle>
    requires |answers| == |articles|
    decreases |articles|
  {
    if articles == [] then []
    else (if answers[0] == "y" then [articles[0]] else []) + Kept(articles[1..], answers[1..])
  }

  lemma {:induction false} KeptIsSubsequence(articles: seq<EnrichedArticle>, answers: seq<string>)
    requires |answers| == |articles|
    ensures IsSubsequence(Kept(articles, answers), articles)
    decreases |articles|
  {
    if articles != [] {
      KeptIsSubsequence(articles[1..], answers[1..]);
      var rest := Kept(articles[1..], answers[1..]);
      if answers[0] == "y" {
        assert ([articles[0]] + rest)[1..] == rest;
      } else if rest != [] {
        assert Kept(articles, answers) == rest;
      }
    }
  }

  /** The selection made from the valid answers alone. */
  function Decide(articles: seq<EnrichedArticle>, answers: seq<string>): Option<seq<EnrichedArticle>>
    decreases |answers|
  {
    if articles == [] then Some([])
    else if answers == [] then None
    else if answers[0] == "q" then Some([])
    else if answers[0] == "y" then Prefixed([articles[0]], Decide(articles[1..], answers[1..]))
    else Decide(articles[1..], answers[1..])
  }

  /** Invalid responses are consumed without deciding anything or advancing to the next article. */
  lemma {:induction false} InvalidResponsesIgnored(articles: seq<EnrichedArticle>, lines: seq<string>)
    ensures Pick(articles, lines) == Decide(articles, Answers(lines))
    decreases |lines|
  {
    if articles != [] && lines != [] {
      InvalidResponsesIgnored(articles[1..], lines[1..]);
      InvalidResponsesIgnored(articles, lines[1..]);
      if IsAnswer(lines[0]) {
        assert ([lines[0]] + Answers(lines[1..]))[1..] == Answers(lines[1..]);
      }
    }
  }

  /**
   * The selection decided by a list of answers: if a `q` answers article `q`, the result is
   * the `y`-answered articles before it; if all articles are answered without a `q`, it is
   * the `y`-answered ones among all; if the answers run out first, there is none.
   */
  lemma {:induction false} DecideCharacterized(articles: seq<EnrichedArticle>, answers: seq<string>)
    ensures var q := FirstQuit(answers);
            if q < |answers| && q < |articles| then
              Decide(articles, answers) == Some(Kept(articles[..q], answers[..q]))
            else if |articles| <= |answers| then
              Decide(articles, answers) == Some(Kept(articles, answers[..|articles|]))
            else
              Decide(articles, answers) == None
    decreases |answers|
  {
    if articles != [] && answers != [] && answers[0] != "q" {
      DecideCharacterized(articles[1..], answers[1..]);
      var q := FirstQuit(answers);
      assert FirstQuit(answers[1..]) == q - 1;
      var head: seq<EnrichedArticle> := if answers[0] == "y" then [articles[0]] else [];
      PrefixedEmpty(Decide(articles[1..], answers[1..]));
      if q < |answers| && q < |articles| {
        assert articles[..q][1..] == articles[1..][..q - 1];
        assert answers[..q][1..] == answers[1..][..q - 1];
        assert Kept(articles[..q], answers[..q]) == head + Kept(articles[1..][..q - 1], answers[1..][..q - 1]);
        assert Decide(articles[1..], answers[1..]) == Some(Kept(articles[1..][..q - 1], answers[1..][..q - 1]));
        assert Decide(articles, answers) == Prefixed(head, Decide(articles[1..], answers[1..]));
      } else if |articles| <= |answers| {
        assert answers[..|articles|][1..] == answers[1..][..|articles| - 1];
        assert Kept(articles, answers[..|articles|]) == head + Kept(articles[1..], answers[1..][..|articles| - 1]);
        assert Decide(articles[1..], answers[1..]) == Some(Kept(articles[1..], answers[1..][..|articles| - 1]));
        assert Decide(articles, answers) == Prefixed(head, Decide(articles[1..], answers[1..]));
      }
    }
  }

  /**
   * The whole behaviour of the prompt loop: with `v` the valid answers and `q` the position of
   * the first `q` in them, the result holds exactly the articles answered `y` before article
   * `q` (nothing from article `q` on), or, without a `q` in time, the articles answered `y`;
   * it is `None` only when the responses end before every article is decided.
   */
  lemma {:induction false} SelectionCharacterized(articles: seq<EnrichedArticle>, lines: seq<string>)
    ensures var v := Answers(lines);
            var q := FirstQuit(v);
            if q < |v| && q < |articles| then
              Pick(articles, lines) == Some(Kept(articles[..q], v[..q]))
            else if |articles| <= |v| then
              Pick(articles, lines) == Some(Kept(articles, v[..|articles|]))
            else
              Pick(articles, lines) == None
  {
    InvalidResponsesIgnored(articles, lines);
    DecideCharacterized(articles, Answers(lines));
  }

  /** The selection is a subsequence of the articles: original order, nothing added. */
  lemma {:induction false} SelectionIsSubsequence(articles: seq<EnrichedArticle>, lines: seq<string>)
    requires Pick(articles, lines).Some?
    ensures IsSubsequence(Pick(articles, lines).value, articles)
    ensures forall a :: a in Pick(articles, lines).value ==> a in articles
  {
    var v := Answers(lines);
    var q := FirstQuit(v);
    SelectionCharacterized(articles, lines);
    if q < |v| && q < |articles| {
      KeptIsSubsequence(articles[..q], v[..q]);
      assert articles == articles[..q] + articles[q..];
      SubsequenceOfLonger(Kept(articles[..q], v[..q]), articles[..q], articles[q..]);
    } else {
      KeptIsSubsequence(articles, v[..|articles|]);
    }
    SubsequenceMembers(Pick(articles, lines).value, articles);
  }

  /** Lines that are not answers, skipped by the re-prompt loop, change nothing. */
  lemma {:induction false} PickSkipsInvalid(articles: seq<EnrichedArticle>, lines: seq<string>, pos: nat, next: nat)
    requires articles != [] && pos <= next <= |lines|
    requires forall j :: pos <= j < next ==> !IsAnswer(lines[j])
    ensures Pick(articles, lines[pos..]) == Pick(articles, lines[next..])
    decreases next - pos
  {
    if pos < next {
      assert lines[pos..][0] == lines[pos] && lines[pos..][1..] == lines[pos + 1..];
      PickSkipsInvalid(articles, lines, pos + 1, next);
    }
  }

  /**
   * The inner loop of `user_pick_news`: reads lines from `pos` until one normalises to `y`,
   * `n` or `q`, and returns that answer with the position after it; `None` when the lines run
   * out first.
   */
  method PromptForAnswer(responses: seq<string>, pos: nat) returns (answer: Option<string>, next: nat)
    requires pos <= |responses|
    ensures pos <= next <= |responses|
    ensures answer.None? ==> next == |responses|
    ensures answer.Some? ==> pos < next && IsAnswer(answer.value) && answer.value == NormalizeAll(responses)[next - 1]
    ensures forall j :: pos <= j < (if answer.Some? then next - 1 else next) ==> !IsAnswer(NormalizeAll(responses)[j])
  {
    next := pos;
    while true
      invariant pos <= next <= |responses|
      invariant forall j :: pos <= j < next ==> !IsAnswer(NormalizeAll(responses)[j])
      decreases |responses| - next
    {
      if next == |responses| {
        return None, next;
      }
      var userInput := Normalize(responses[next]);
      next := next + 1;
      if userInput == "y" || userInput == "n" || userInput == "q" {
        return Some(userInput), next;
      }
    }
  }

  /**
   * `user_pick_news`: the loop over the articles with its `skip_all` flag; each article waits
   * for a valid answer from the re-prompt loop.
   */
  method UserPickNews(finalNews: seq<EnrichedArticle>, responses: seq<string>) returns (selected: Option<seq<EnrichedArticle>>)
    ensures selected == Pick(finalNews, NormalizeAll(responses))
  {
    ghost var lines := NormalizeAll(responses);
    var selectedArticles: seq<EnrichedArticle> := [];
    var skipAll := false;
    var pos := 0;
    var i := 0;
    assert finalNews[i..] == finalNews && lines[pos..] == lines;
    PrefixedEmpty(Pick(finalNews, lines));
    while i < |finalNews|
      invariant 0 <= i <= |finalNews| && 0 <= pos <= |responses|
      invariant !skipAll ==> Pick(finalNews, lines) == Prefixed(selectedArticles, Pick(finalNews[i..], lines[pos..]))
      invariant skipAll ==> Pick(finalNews, lines) == Some(selectedArticles)
    {
      if skipAll {
        break;
      }
      var article := finalNews[i];
      var answer, next := PromptForAnswer(responses, pos);
      if answer.None? {
        PickSkipsInvalid(finalNews[i..], lines, pos, next);
        assert lines[next..] == [];
        return None;
      }
      PickSkipsInvalid(finalNews[i..], lines, pos, next - 1);
      assert lines[next - 1..][0] == lines[next - 1] && lines[next - 1..][1..] == lines[next..];
      assert finalNews[i..][0] == article && finalNews[i..][1..] == finalNews[i + 1..];
      pos := next;
      var userInput := answer.value;
      if userInput == "y" {
        PrefixedTwice(selectedArticles, [article], Pick(finalNews[i + 1..], lines[pos..]));
        selectedArticles := selectedArticles + [article];
      } else if userInput == "q" {
        assert selectedArticles + [] == selectedArticles;
        skipAll := true;
      }
      i := i + 1;
    }
    if !skipAll {
      assert finalNews[i..] == [];
      assert selectedArticles + [] == selectedArticles;
    }
    return Some(selectedArticles);
  }
}
