/** The records the sidebar works on and the outside functions it calls. */
module NewsModel {
  import opened Wrappers

  /** One decoded NewsAPI article, or one RSS item mapped into the same shape.
      `urlToImage` is None when the key is missing or null in the decoded record. */
  datatype Article = Article(
    title: string,
    url: string,
    sourceName: string,
    publishedAt: string,
    urlToImage: Option<string>)

  /** One `channel/item` of the Google News RSS fallback feed. */
  datatype RssItem = RssItem(title: string, link: string, pubDate: string)

  /** The WordPress and PHP library functions the routine calls but whose code is
      not part of this model: `esc_html`, `esc_url`, `date('c', strtotime(..))`
      and `date('M j, Y', strtotime(..))`. They are left uninterpreted. */
  datatype Env = Env(
    escHtml: string -> string,
    escUrl: string -> string,
    isoDate: string -> string,
    displayDate: string -> string)

  /** PHP's `empty()` on a string: only "" and "0" are empty (and falsy). */
  predicate PhpEmpty(s: string) {
    s == "" || s == "0"
  }
}
