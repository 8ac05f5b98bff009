/**
 * The first pass over the search page: every listed result is read, checked
 * against the topics, resolved to an absolute address, and appended to the
 * list of articles to scrape unless an article with that address is already
 * there.
 */
module Collection {
  import opened Wrappers
  import opened Text
  import opened Relevance

  /** One entry of the search page, as the browser exposes it. */
  datatype SearchResult =
    | Unreadable                         // reading the headline, link or snippet raised
    | Entry(rawTitle: string, href: Option<string>, rawSnippet: string)

  /**
   * What the filtering pass is given: the user's topic, the topic the search
   * page echoes (absent when its input field carries no value), the address of
   * the search page, and the reference resolution applied to each link (a
   * result of None is a resolution that raised).
   */
  datatype Query = Query(
    userTopic: string,
    corrected: Option<string>,
    searchUrl: string,
    join: (string, string) -> Option<string>)

  /** An article kept for scraping. */
  datatype Article = Article(url: string, title: string)

  /**
   * The script's acceptance conditions for one entry, stated declaratively:
   * the entry was readable, its stripped headline is non-empty and is the
   * article's title, its link is present and non-empty, the page echoed a
   * topic, the entry passes the topic test, and the link resolves to the
   * article's address.
   */
  predicate Admits(r: SearchResult, q: Query, a: Article) {
    && r.Entry?
    && Strip(r.rawTitle) != "" && a.title == Strip(r.rawTitle)
    && r.href.Some? && r.href.value != ""
    && q.corrected.Some?
    && Relevant(a.title, Strip(r.rawSnippet), q.userTopic, q.corrected.value)
    && q.join(q.searchUrl, r.href.value) == Some(a.url)
  }

  /**
   * The article one search entry contributes, if any. Every way the script
   * skips an entry yields None: an unreadable entry, an empty headline after
   * stripping, a missing or empty link, an absent echoed topic (lower-casing
   * it raises), an irrelevant entry, and a link that cannot be resolved.
   */
  function Examine(r: SearchResult, q: Query): (m: Option<Article>)
    ensures m.Some? ==> Admits(r, q, m.value)
    ensures m.None? ==> forall a :: !Admits(r, q, a)
  {
    match r
    case Unreadable => None
    case Entry(rawTitle, href, rawSnippet) =>
      var title := Strip(rawTitle);
      var snippet := Strip(rawSnippet);
      if title == "" || href.None? || href.value == "" then None
      else if q.corrected.None? then None
      else if !Relevant(title, snippet, q.userTopic, q.corrected.value) then None
      else
        match q.join(q.searchUrl, href.value)
        case None => None
        case Some(url) => Some(Article(url, title))
  }

  /** `any(a['url'] == url for a in articles)`. */
  predicate AnyUrl(articles: seq<Article>, url: string) {
    exists k :: 0 <= k < |articles| && articles[k].url == url
  }

  predicate NoDuplicateUrls(articles: seq<Article>) {
    forall k1, k2 :: 0 <= k1 < k2 < |articles| ==> articles[k1].url != articles[k2].url
  }

  /** What each search entry contributes, position by position. */
  function Matches(rs: seq<SearchResult>, q: Query): (ms: seq<Option<Article>>)
    ensures |ms| == |rs|
  {
    seq(|rs|, j requires 0 <= j < |rs| => Examine(rs[j], q))
  }

  /** The contribution is an article with address `url`. */
  predicate HasUrl(m: Option<Article>, url: string) {
    m.Some? && m.value.url == url
  }

  /** Some contribution is an article with address `url`. */
  predicate Matched(ms: seq<Option<Article>>, url: string) {
    exists j :: 0 <= j < |ms| && HasUrl(ms[j], url)
  }

  /** The position of the first contribution that is an article with address `url`. */
  function FirstMatch(ms: seq<Option<Article>>, url: string): (j: nat)
    requires Matched(ms, url)
    ensures j < |ms| && HasUrl(ms[j], url)
    ensures forall j' :: 0 <= j' < j ==> !HasUrl(ms[j'], url)
  {
    if HasUrl(ms[0], url) then 0
    else
      assert Matched(ms[1..], url) by {
        var j :| 0 <= j < |ms| && HasUrl(ms[j], url);
        assert ms[1..][j - 1] == ms[j];
      }
      1 + FirstMatch(ms[1..], url)
  }

  /**
   * The contributions folded into a list the way the filtering pass does it:
   * an article is appended unless one with the same address is already listed.
   * Every listed article is one of the contributions, and the list is never
   * longer than the contributions.
   */
  function Dedup(ms: seq<Option<Article>>): (articles: seq<Article>)
    ensures |articles| <= |ms|
    ensures forall k :: 0 <= k < |articles| ==> Some(articles[k]) in ms
  {
    if ms == [] then []
    else
      var init := ms[..|ms| - 1];
      var acc := Dedup(init);
      assert forall x :: x in init ==> x in ms;
      match ms[|ms| - 1]
      case None => acc
      case Some(a) => if AnyUrl(acc, a.url) then acc else acc + [a]
  }

  /** The list the filtering pass builds from the search entries. */
  function Collected(rs: seq<SearchResult>, q: Query): seq<Article> {
    Dedup(Matches(rs, q))
  }

  /** The filtering pass over the search entries. */
  method Collect(rs: seq<SearchResult>, q: Query) returns (articles: seq<Article>)
    ensures articles == Collected(rs, q)
    ensures NoDuplicateUrls(articles)
    ensures |articles| <= |rs|
  {
    ghost var ms := Matches(rs, q);
    articles := [];
    for i := 0 to |rs|
      invariant articles == Dedup(ms[..i])
    {
      assert ms[..i + 1][..i] == ms[..i];
      match Examine(rs[i], q) {
        case None =>
        case Some(a) =>
          if !AnyUrl(articles, a.url) {
            articles := articles + [a];
          }
      }
    }
    assert ms[..|rs|] == ms;
    DedupUrls(ms);
  }

  /** The first match is the only position that matches with nothing matching before it. */
  lemma FirstMatchUnique(ms: seq<Option<Article>>, url: string, j: nat)
    requires j < |ms| && HasUrl(ms[j], url)
    requires forall j' :: 0 <= j' < j ==> !HasUrl(ms[j'], url)
    ensures Matched(ms, url) && FirstMatch(ms, url) == j
  {
  }

  /** Extending the contributions at the end keeps every address's first match where it was. */
  lemma FirstMatchOfPrefix(ms: seq<Option<Article>>, url: string)
    requires ms != [] && Matched(ms[..|ms| - 1], url)
    ensures Matched(ms, url)
    ensures FirstMatch(ms, url) == FirstMatch(ms[..|ms| - 1], url)
  {
    var init := ms[..|ms| - 1];
    var j := FirstMatch(init, url);
    assert ms[j] == init[j];
    forall j' | 0 <= j' < j
      ensures !HasUrl(ms[j'], url)
    {
      assert ms[j'] == init[j'];
    }
    FirstMatchUnique(ms, url, j);
  }

  /** An address first matched by the last contribution has it as its first match. */
  lemma FirstMatchAtEnd(ms: seq<Option<Article>>, url: string)
    requires ms != [] && !Matched(ms[..|ms| - 1], url) && HasUrl(ms[|ms| - 1], url)
    ensures Matched(ms, url)
    ensures FirstMatch(ms, url) == |ms| - 1
  {
  }

  lemma MatchedOfSnoc(ms: seq<Option<Article>>, url: string)
    requires ms != []
    ensures Matched(ms, url) <==> Matched(ms[..|ms| - 1], url) || HasUrl(ms[|ms| - 1], url)
  {
  }

  /**
   * No address is listed twice, and an address is listed exactly when some
   * contribution is an article with it.
   */
  lemma {:induction false} DedupUrls(ms: seq<Option<Article>>)
    ensures NoDuplicateUrls(Dedup(ms))
    ensures forall url :: AnyUrl(Dedup(ms), url) <==> Matched(ms, url)
    decreases |ms|
  {
    if ms == [] {
      return;
    }
    var init := ms[..|ms| - 1];
    var acc := Dedup(init);
    var c := Dedup(ms);
    DedupUrls(init);
    forall url
      ensures Matched(ms, url) <==> Matched(init, url) || HasUrl(ms[|ms| - 1], url)
    {
      MatchedOfSnoc(ms, url);
    }
    match ms[|ms| - 1]
    case None =>
      assert c == acc;
    case Some(a) =>
      if !AnyUrl(acc, a.url) {
        assert c == acc + [a];
        forall url | AnyUrl(c, url)
          ensures AnyUrl(acc, url) || url == a.url
        {
          var k :| 0 <= k < |c| && c[k].url == url;
          if k < |acc| {
            assert acc[k].url == url;
          }
        }
        forall url | AnyUrl(acc, url)
          ensures AnyUrl(c, url)
        {
          var k :| 0 <= k < |acc| && acc[k].url == url;
          assert c[k] == acc[k];
        }
        assert c[|acc|].url == a.url;
      }
  }

  /** The article kept for an address is the first contribution with that address. */
  lemma {:induction false} DedupFirstWins(ms: seq<Option<Article>>)
    ensures forall k :: 0 <= k < |Dedup(ms)| ==>
      Matched(ms, Dedup(ms)[k].url) && ms[FirstMatch(ms, Dedup(ms)[k].url)] == Some(Dedup(ms)[k])
    decreases |ms|
  {
    if ms == [] {
      return;
    }
    var init := ms[..|ms| - 1];
    var acc := Dedup(init);
    var c := Dedup(ms);
    DedupFirstWins(init);
    DedupUrls(init);
    forall k | 0 <= k < |acc|
      ensures Matched(ms, acc[k].url)
      ensures ms[FirstMatch(ms, acc[k].url)] == Some(acc[k])
    {
      FirstMatchOfPrefix(ms, acc[k].url);
      assert ms[FirstMatch(init, acc[k].url)] == init[FirstMatch(init, acc[k].url)];
    }
    match ms[|ms| - 1]
    case None =>
      assert c == acc;
    case Some(a) =>
      if !AnyUrl(acc, a.url) {
        assert c == acc + [a];
        FirstMatchAtEnd(ms, a.url);
      }
  }

  /** The list follows the order in which addresses are first matched. */
  lemma {:induction false} DedupOrder(ms: seq<Option<Article>>)
    ensures forall k1, k2 :: 0 <= k1 < k2 < |Dedup(ms)| ==>
      Matched(ms, Dedup(ms)[k1].url) && Matched(ms, Dedup(ms)[k2].url) &&
      FirstMatch(ms, Dedup(ms)[k1].url) < FirstMatch(ms, Dedup(ms)[k2].url)
    decreases |ms|
  {
    if ms == [] {
      assert Dedup(ms) == [];
      return;
    }
    var init := ms[..|ms| - 1];
    var acc := Dedup(init);
    var c := Dedup(ms);
    assert Dedup(ms) == (match ms[|ms| - 1] case None => acc case Some(a) => if AnyUrl(acc, a.url) then acc else acc + [a]);
    DedupOrder(init);
    DedupUrls(init);
    forall k | 0 <= k < |acc|
      ensures Matched(ms, acc[k].url)
      ensures FirstMatch(ms, acc[k].url) == FirstMatch(init, acc[k].url)
    {
      assert AnyUrl(acc, acc[k].url);
      FirstMatchOfPrefix(ms, acc[k].url);
    }
    match ms[|ms| - 1]
    case None =>
      assert c == acc;
    case Some(a) =>
      if !AnyUrl(acc, a.url) {
        assert c == acc + [a];
        FirstMatchAtEnd(ms, a.url);
        forall k1, k2 | 0 <= k1 < k2 < |c|
          ensures FirstMatch(ms, c[k1].url) < FirstMatch(ms, c[k2].url)
        {
          assert c[k1] == acc[k1];
          if k2 < |acc| {
            assert c[k2] == acc[k2];
          }
        }
      }
  }

  /**
   * Every collected article comes from an entry of the page whose headline,
   * link and snippet pass all of the script's acceptance conditions.
   */
  lemma CollectedSound(rs: seq<SearchResult>, q: Query)
    ensures forall k :: 0 <= k < |Collected(rs, q)| ==>
      exists j :: 0 <= j < |rs| && Admits(rs[j], q, Collected(rs, q)[k])
  {
    var ms := Matches(rs, q);
    var c := Collected(rs, q);
    DedupFirstWins(ms);
    forall k | 0 <= k < |c|
      ensures exists j :: 0 <= j < |rs| && Admits(rs[j], q, c[k])
    {
      var j := FirstMatch(ms, c[k].url);
      assert ms[j] == Examine(rs[j], q);
    }
  }

  /** Every entry that passes the acceptance conditions has its resolved address in the list. */
  lemma CollectedComplete(rs: seq<SearchResult>, q: Query)
    ensures forall j, a :: 0 <= j < |rs| && Admits(rs[j], q, a) ==> AnyUrl(Collected(rs, q), a.url)
  {
    var ms := Matches(rs, q);
    DedupUrls(ms);
    forall j, a | 0 <= j < |rs| && Admits(rs[j], q, a)
      ensures AnyUrl(Collected(rs, q), a.url)
    {
      assert ms[j] == Examine(rs[j], q);
      assert HasUrl(ms[j], a.url);
    }
  }

  /** Nothing is collected exactly when no entry contributes an article. */
  lemma CollectedEmptyIff(rs: seq<SearchResult>, q: Query)
    ensures Collected(rs, q) == [] <==> forall j :: 0 <= j < |rs| ==> Examine(rs[j], q).None?
  {
    var ms := Matches(rs, q);
    DedupUrls(ms);
    var c := Collected(rs, q);
    if c != [] {
      assert AnyUrl(c, c[0].url);
    } else {
      forall j | 0 <= j < |rs|
        ensures Examine(rs[j], q).None?
      {
        assert ms[j] == Examine(rs[j], q);
        if ms[j].Some? {
          assert HasUrl(ms[j], ms[j].value.url);
          assert Matched(ms, ms[j].value.url);
        }
      }
    }
  }

  /** Without an echoed topic every readable entry raises, so nothing is collected. */
  lemma NoEchoedTopicCollectsNothing(rs: seq<SearchResult>, q: Query)
    requires q.corrected.None?
    ensures Collected(rs, q) == []
  {
    CollectedEmptyIff(rs, q);
  }
}
