/** `csn_fetch_child_support_news` as a whole: the cache-and-fallback decision
    followed by the render step, with the transient, both sources and the
    WordPress helpers supplied as inputs. */
module NewsSidebar {
  import opened Wrappers
  import opened NewsModel
  import opened NewsFetch
  import opened NewsRender

  /** The markup the shortcode returns, and what the decision did on the way. */
  datatype Response = Response(html: string, fetched: Fetched)

  function FetchChildSupportNews(cache: Option<seq<Article>>, primary: Option<seq<Article>>,
                                 rss: seq<RssItem>, env: Env): (r: Response)
    ensures r.fetched == Fetch(cache, primary, rss, env.isoDate)
    ensures r.html == Render(r.fetched.articles, env)
    ensures r.html == Placeholder <==> |r.fetched.articles| == 0
    ensures r.fetched.stored.Some? ==> |r.fetched.stored.value| > 0
    ensures cache.Some? ==> r.html == Render(cache.value, env)
    ensures cache.None? ==> (r.html == Placeholder <==> !PrimaryUsable(primary) && |rss| == 0)
  {
    var f := Fetch(cache, primary, rss, env.isoDate);
    Response(Render(f.articles, env), f)
  }

  /** On a cache hit the page shows the cached articles, whatever the sources hold. */
  lemma HitRendersCached(cached: seq<Article>,
                         p1: Option<seq<Article>>, rss1: seq<RssItem>,
                         p2: Option<seq<Article>>, rss2: seq<RssItem>, env: Env)
    ensures FetchChildSupportNews(Some(cached), p1, rss1, env).html == Render(cached, env)
    ensures FetchChildSupportNews(Some(cached), p1, rss1, env)
         == FetchChildSupportNews(Some(cached), p2, rss2, env)
  {
    CacheHitIgnoresSources(cached, p1, rss1, p2, rss2, env.isoDate);
  }

  /** On a miss the placeholder appears exactly when NewsAPI gave nothing usable and
      the RSS feed had no items; a non-empty answer whose titles all miss the topic
      still gives the bare wrapper. */
  lemma MissPlaceholderIff(primary: Option<seq<Article>>, rss: seq<RssItem>, env: Env)
    ensures FetchChildSupportNews(None, primary, rss, env).html == Placeholder <==>
      !PrimaryUsable(primary) && |rss| == 0
  {
    EmptyIffBothSourcesEmpty(primary, rss, env.isoDate);
  }

  /** Entries built from the RSS fallback never carry an image: every fallback article
      has its image url set to "". */
  lemma {:induction false} FallbackHasNoImages(primary: Option<seq<Article>>, rss: seq<RssItem>, env: Env)
    requires !PrimaryUsable(primary)
    ensures var items := Items(Kept(FetchChildSupportNews(None, primary, rss, env).fetched.articles), env);
      forall i :: 0 <= i < |items| ==> !HasImage(items[i])
  {
    var arts := FromRss(rss, env.isoDate);
    assert Fetch(None, primary, rss, env.isoDate).articles == arts;
    var kept := Kept(arts);
    var items := Items(kept, env);
    forall i | 0 <= i < |items|
      ensures !HasImage(items[i])
    {
      assert kept[i] in kept;
      assert kept[i] in arts;
      var j :| 0 <= j < |arts| && arts[j] == kept[i];
      assert kept[i].urlToImage == Some("");
      assert items[i] == ToItem(kept[i], env);
    }
  }
}
