# Child Support News Sidebar — a Dafny model

The WordPress plugin `child-support-news-sidebar.php` shows a list of recent news
articles about child support. Its one piece of logic is
`csn_fetch_child_support_news`, which works in two halves:

* **Fetch decision.** It reads the `csn_child_support_news` transient. On a miss it
  asks NewsAPI. If that answer has no articles, it replaces the list with the Google
  News RSS items, each mapped into an article record labelled "Google News" with an
  empty image url. It stores the list back into the transient only when the list is
  non-empty.
* **Render.** An empty list gives the placeholder
  `<p>No related news articles found.</p>`. Otherwise the output is the wrapper
  `<div class="child-support-news-sidebar"><ul>`, then one `<li>` per article whose
  title contains "child support" (ASCII case-insensitive, as `stripos` does), in
  input order, then `</ul></div>`. An entry holds an optional `<img>`, the link, and
  a caption made of the source name and the date.

The model is functional. The transient is `Option<seq<Article>>`. The decoded NewsAPI
answer is `Option<seq<Article>>`: None stands for a transport error, JSON that does not
decode, or a missing `articles` key. The RSS feed is a `seq<RssItem>`. `esc_html`,
`esc_url` and the two `date(…, strtotime(…))` calls are left uninterpreted. They are
function-valued fields of an `Env` record passed in.

Modules:

* `Wrappers` holds `Option`.
* `NewsModel` holds `Article`, `RssItem`, `Env` and PHP's `empty()` on strings.
* `TextSearch` models `stripos`.
* `NewsFetch` holds the cache, primary and fallback decision.
* `NewsRender` holds the filter and the markup.
* `NewsSidebar` holds the whole function.

Points where the model follows the code rather than a looser reading of it:

* The image test is `isset($article['urlToImage']) && !empty(...)`, followed by
  `if ($image)` on the *escaped* url. PHP treats both "" and "0" as empty. So an
  `<img>` is written only when the url is set, is neither "" nor "0", and `esc_url`
  does not turn it into "" or "0".
* A transient value written by this function always holds an `articles` key, so it is
  truthy. Any stored value therefore counts as a hit. A hit on a list with no articles
  (a value written by something else) renders the placeholder.
* The caption separator is copied character for character as the file spells it
  (`â€¢`, a bullet shown through the wrong encoding).

## Model

| member | source | states |
|---|---|---|
| TextSearch.StriposFrom | child-support-news-sidebar.php:94 | the search returns the first position at or after the start where the needle matches ignoring ASCII case, and None exactly when there is no such position |
| TextSearch.Stripos | child-support-news-sidebar.php:94 | `stripos` finds a position iff the needle occurs somewhere ignoring ASCII case, and the position it returns (a character index) is the first occurrence |
| TextSearch.StriposCaseInsensitive | child-support-news-sidebar.php:94 | two titles that are equal after ASCII case folding get the same search answer, so the relevance filter ignores capitalisation |
| NewsRender.TopicExamples | child-support-news-sidebar.php:94 | "Child Support Reform Passes" matches the topic at position 0 and "Court Ruling on Garnishment" does not match at all |
| NewsFetch.FromRss | child-support-news-sidebar.php:70-80 | the fallback makes one article per RSS item, in feed order, with title and url taken from the item's title and link, source "Google News", the item's date normalised, and the image url set to "" |
| NewsFetch.Fetch | child-support-news-sidebar.php:57-86 | NewsAPI is asked iff the transient misses; the fallback runs iff it misses and NewsAPI gave no articles; on a hit the list is the cached one; a usable NewsAPI list is taken as is; the cache is written iff it missed and the final list is non-empty, and what is written is the returned list |
| NewsFetch.CacheHitIgnoresSources | child-support-news-sidebar.php:57-60 | on a hit the outcome is the cached list, nothing is stored, and it is the same for any NewsAPI answer and any RSS feed |
| NewsFetch.PrimaryIgnoresFallback | child-support-news-sidebar.php:60-68 | on a miss with a non-empty NewsAPI list, that list is returned and stored, and the outcome is the same for any RSS feed |
| NewsFetch.NeverStoresEmpty | child-support-news-sidebar.php:83-85 | after any run the transient is unchanged or holds a non-empty list |
| NewsFetch.StoredRunServesNextRun | child-support-news-sidebar.php:58-85 | after a miss that found articles, the next run is a hit that returns the same list without consulting either source |
| NewsFetch.EmptyRunRetriesNextRun | child-support-news-sidebar.php:83-85 | after a miss that found nothing, the cache stays empty and the next run asks NewsAPI again |
| NewsFetch.EmptyIffBothSourcesEmpty | child-support-news-sidebar.php:67-81 | a miss ends with no articles exactly when NewsAPI gave no usable list and the RSS feed had no items |
| NewsRender.Kept | child-support-news-sidebar.php:93-94 | the kept articles are exactly the input articles whose title contains "child support" (ASCII case-insensitive), and there are no more of them than of the input |
| NewsRender.KeptOne | child-support-news-sidebar.php:93-94 | a single article is kept exactly when its title mentions the topic; with the concatenation rule this determines the kept list, duplicates included |
| NewsRender.KeptAppend | child-support-news-sidebar.php:93-94 | filtering a concatenation is concatenating the filtered parts, so the kept articles keep their input order |
| NewsRender.KeptAll | child-support-news-sidebar.php:93-94 | a list whose titles all mention the topic is kept whole, in order |
| NewsRender.KeptNone | child-support-news-sidebar.php:93-94 | a list none of whose titles mentions the topic is dropped entirely |
| NewsRender.Items | child-support-news-sidebar.php:95-99 | there is one entry per kept article, in order, the i-th built from the i-th kept article |
| NewsRender.Render | child-support-news-sidebar.php:88-109 | the output is the placeholder if and only if the article list is empty |
| NewsRender.AppendEntries | child-support-news-sidebar.php:93-106 | the loop that appends an entry for each relevant article and skips the others adds exactly the entries of the kept articles, in order |
| NewsRender.RenderLoop | child-support-news-sidebar.php:88-109 | the string the plugin builds with `.=` is the modelled output: the placeholder for an empty list, else the opening, the entries and the closing |
| NewsRender.BodyIsKeptItems | child-support-news-sidebar.php:93-106 | what the loop appends is exactly one entry per article whose title mentions the topic, in input order; no other article produces output |
| NewsRender.RenderShape | child-support-news-sidebar.php:92-107 | a non-empty list renders as the wrapper opening, one entry per kept article (the i-th from the i-th kept article), then the wrapper closing |
| NewsRender.RenderNoneRelevant | child-support-news-sidebar.php:88-107 | a non-empty list whose titles all miss the topic renders as the bare wrapper `<div …><ul></ul></div>`, not the placeholder |
| NewsRender.ItemLayout | child-support-news-sidebar.php:99-105 | every entry starts with `<li>`; it continues with `<img ` iff the image url is set, not PHP-empty and not escaped to a PHP-empty string; it ends with the link and caption built from that same article |
| NewsSidebar.FetchChildSupportNews | child-support-news-sidebar.php:53-110 | the decision is the one `Fetch` makes from the same transient and sources, and the page is the render of the list it decided on, on a hit and on a miss alike; the shortcode returns the placeholder iff that list is empty; on a hit the page is the render of the cached list; on a miss the placeholder appears iff NewsAPI gave no usable list and the feed had no items; an empty list is never stored |
| NewsSidebar.HitRendersCached | child-support-news-sidebar.php:57-60 | on a hit the page is the render of the cached articles, and the whole response does not depend on either source |
| NewsSidebar.MissPlaceholderIff | child-support-news-sidebar.php:60-90 | on a miss the placeholder appears iff NewsAPI gave no usable list and the RSS feed had no items |
| NewsSidebar.FallbackHasNoImages | child-support-news-sidebar.php:72-104 | when the fallback supplied the articles, no rendered entry carries an image |

## Left out

- Settings page and option registration (lines 14-50): CMS glue with no logic. The API key therefore does not appear; it only affects the NewsAPI answer, which is an input.
- Shortcode and sidebar registration, footer display and CSS injection (lines 113-145): hook wiring only.
- The HTTP request, JSON decoding and XML loading (lines 61-64, 69): foreign I/O and parsers. Their results are inputs. An RSS load that fails is passed as an empty item list. Not modelled: a JSON body that decodes to a scalar, and records missing fields.
- `esc_html`, `esc_url`, `strtotime` and `date` (lines 77, 95-99): WordPress and PHP library code that is not part of this model. They are uninterpreted functions in `Env`, and nothing is claimed about what they escape or how they format.
- The one-hour time-to-live and the clock (line 84): the transient is modelled as present or absent, so expiry is the same as absence.
- Concurrency between page requests: each call is modelled as one run from a given transient value.
- TextSearch.Stripos: folds only ASCII 'A'-'Z', as `stripos` does from PHP 8.2 on. Older PHP folded case according to the locale. Positions are character indices, not PHP's byte offsets. The two agree only when every character before the match is ASCII: for "Niño child support" PHP returns 6 and the model returns 5. Whether there is a match at all agrees for an ASCII needle, and that is all the filter uses.
