/** The cache-and-fallback decision of the sidebar: read the transient, else ask
    NewsAPI, else map the Google News RSS items, and store only a non-empty list. */
module NewsFetch {
  import opened Wrappers
  import opened NewsModel

  /** Source label given to every article that comes from the RSS fallback. */
  const FallbackSource: string := "Google News"

  /** What one run of the decision saw and did. `stored` is the value handed to
      `set_transient`, or None when the cache is not written. `askedPrimary` and
      `loadedFallback` only record which branch was taken; that a source is really
      not consulted is stated by `CacheHitIgnoresSources` and
      `PrimaryIgnoresFallback`, whose outcomes do not depend on it. */
  datatype Fetched = Fetched(
    articles: seq<Article>,
    askedPrimary: bool,
    loadedFallback: bool,
    stored: Option<seq<Article>>)

  /** The primary answer counts only when it decoded to a non-empty `articles` list. */
  predicate PrimaryUsable(primary: Option<seq<Article>>) {
    primary.Some? && |primary.value| > 0
  }

  /** One RSS item as an article record. */
  function FromRssItem(item: RssItem, isoDate: string -> string): Article {
    Article(item.title, item.link, FallbackSource, isoDate(item.pubDate), Some(""))
  }

  /** The fallback list: one article per RSS item, in feed order, titled and linked
      from the item, labelled "Google News", with an empty (but set) image url. */
  function FromRss(items: seq<RssItem>, isoDate: string -> string): (r: seq<Article>)
    ensures |r| == |items|
    ensures forall i :: 0 <= i < |items| ==>
      && r[i].title == items[i].title
      && r[i].url == items[i].link
      && r[i].sourceName == FallbackSource
      && r[i].publishedAt == isoDate(items[i].pubDate)
      && r[i].urlToImage == Some("")
  {
    if |items| == 0 then []
    else [FromRssItem(items[0], isoDate)] + FromRss(items[1..], isoDate)
  }

  /** The decision, with the transient, the decoded NewsAPI answer and the RSS items
      as inputs. `cache` is the transient (a stored value always holds an `articles`
      key and so is truthy); `primary` is None on a transport error, undecodable
      JSON or a missing `articles` key. */
  function Fetch(cache: Option<seq<Article>>, primary: Option<seq<Article>>,
                 rss: seq<RssItem>, isoDate: string -> string): (f: Fetched)
    ensures f.askedPrimary <==> cache.None?
    ensures f.loadedFallback <==> cache.None? && !PrimaryUsable(primary)
    ensures cache.Some? ==> f.articles == cache.value
    ensures cache.None? && PrimaryUsable(primary) ==> f.articles == primary.value
    ensures f.loadedFallback ==> f.articles == FromRss(rss, isoDate)
    ensures f.stored.Some? <==> cache.None? && |f.articles| > 0
    ensures f.stored.Some? ==> f.stored.value == f.articles
  {
    match cache
    case Some(hit) => Fetched(hit, false, false, None)
    case None =>
      var usable := PrimaryUsable(primary);
      var list := if usable then primary.value else FromRss(rss, isoDate);
      Fetched(list, true, !usable, if |list| > 0 then Some(list) else None)
  }

  /** The transient after the run. */
  function CacheAfter(cache: Option<seq<Article>>, f: Fetched): Option<seq<Article>> {
    if f.stored.Some? then f.stored else cache
  }

  /** On a hit neither source is consulted: the answer is the same whatever the
      sources would have said, and it is the cached list. */
  lemma CacheHitIgnoresSources(cached: seq<Article>,
                               p1: Option<seq<Article>>, rss1: seq<RssItem>,
                               p2: Option<seq<Article>>, rss2: seq<RssItem>,
                               isoDate: string -> string)
    ensures Fetch(Some(cached), p1, rss1, isoDate) == Fetch(Some(cached), p2, rss2, isoDate)
    ensures Fetch(Some(cached), p1, rss1, isoDate) == Fetched(cached, false, false, None)
  {
  }

  /** A usable primary answer is taken as it is and the RSS feed is never read. */
  lemma PrimaryIgnoresFallback(primary: Option<seq<Article>>, rss1: seq<RssItem>,
                               rss2: seq<RssItem>, isoDate: string -> string)
    requires PrimaryUsable(primary)
    ensures Fetch(None, primary, rss1, isoDate) == Fetch(None, primary, rss2, isoDate)
    ensures Fetch(None, primary, rss1, isoDate) == Fetched(primary.value, true, false, Some(primary.value))
  {
  }

  /** An empty list is never stored: whatever the inputs, the transient afterwards is
      either what it was or a non-empty list. */
  lemma NeverStoresEmpty(cache: Option<seq<Article>>, primary: Option<seq<Article>>,
                         rss: seq<RssItem>, isoDate: string -> string)
    ensures var after := CacheAfter(cache, Fetch(cache, primary, rss, isoDate));
      after == cache || (after.Some? && |after.value| > 0)
  {
  }

  /** A run that stored its list makes the next run a hit that returns the same list
      without consulting either source. */
  lemma StoredRunServesNextRun(primary: Option<seq<Article>>, rss: seq<RssItem>,
                               primary2: Option<seq<Article>>, rss2: seq<RssItem>,
                               isoDate: string -> string)
    requires |Fetch(None, primary, rss, isoDate).articles| > 0
    ensures var f := Fetch(None, primary, rss, isoDate);
      Fetch(CacheAfter(None, f), primary2, rss2, isoDate) == Fetched(f.articles, false, false, None)
  {
  }

  /** A run that ended empty leaves the cache empty, so the next run asks NewsAPI again. */
  lemma EmptyRunRetriesNextRun(primary: Option<seq<Article>>, rss: seq<RssItem>,
                               primary2: Option<seq<Article>>, rss2: seq<RssItem>,
                               isoDate: string -> string)
    requires |Fetch(None, primary, rss, isoDate).articles| == 0
    ensures var f := Fetch(None, primary, rss, isoDate);
      CacheAfter(None, f) == None && Fetch(CacheAfter(None, f), primary2, rss2, isoDate).askedPrimary
  {
  }

  /** The run ends empty exactly when NewsAPI gave nothing usable and the feed had no items. */
  lemma EmptyIffBothSourcesEmpty(primary: Option<seq<Article>>, rss: seq<RssItem>,
                                 isoDate: string -> string)
    ensures |Fetch(None, primary, rss, isoDate).articles| == 0 <==>
      !PrimaryUsable(primary) && |rss| == 0
  {
  }
}
