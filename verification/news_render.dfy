/** The render half of the sidebar: keep the articles whose title mentions
    "child support" (ASCII case-insensitive), and lay them out as an HTML list,
    or show a placeholder when there are no articles at all. */
module NewsRender {
  import opened Wrappers
  import opened NewsModel
  import opened TextSearch

  const Topic: string := "child support"
  const Placeholder: string := "<p>No related news articles found.</p>"
  const Open: string := "<div class=\"child-support-news-sidebar\"><ul>"
  const Close: string := "</ul></div>"
  /** The caption separator, character for character as the plugin file spells it. */
  const Separator: string := " \U{e2}\U{20ac}\U{a2} "

  /** The render-time relevance test: `stripos($title, 'child support') !== false`. */
  predicate Relevant(a: Article) {
    Stripos(a.title, Topic).Some?
  }

  /** The articles that survive the relevance test, in input order. */
  function Kept(arts: seq<Article>): (r: seq<Article>)
    ensures |r| <= |arts|
    ensures forall a :: a in r <==> a in arts && Relevant(a)
  {
    if |arts| == 0 then []
    else (if Relevant(arts[0]) then [arts[0]] else []) + Kept(arts[1..])
  }

  /** One list entry, its fields already escaped and formatted. `image` is the value
      of `$image`: the escaped url, or "" when there is no usable image url. */
  datatype Item = Item(image: string, href: string, title: string, source: string, date: string)

  /** `$image`: the escaped url when `urlToImage` is set and not PHP-empty, else "". */
  function ImageSource(a: Article, env: Env): string {
    match a.urlToImage
    case Some(u) => if PhpEmpty(u) then "" else env.escUrl(u)
    case None => ""
  }

  function ToItem(a: Article, env: Env): Item {
    Item(ImageSource(a, env), env.escUrl(a.url), env.escHtml(a.title),
         env.escHtml(a.sourceName), env.displayDate(a.publishedAt))
  }

  /** The `<img>` tag is written when `$image` is truthy. */
  predicate HasImage(it: Item) {
    !PhpEmpty(it.image)
  }

  function ImageTag(it: Item): string {
    if HasImage(it) then
      "<img src='" + it.image + "' alt='" + it.title + "' style='max-width:100%;height:auto;margin-bottom:5px;' />"
    else ""
  }

  function LinkAndCaption(it: Item): string {
    "<a href='" + it.href + "' target='_blank'>" + it.title + "</a><br><small>"
      + it.source + Separator + it.date + "</small></li>"
  }

  function ItemHtml(it: Item): string {
    "<li>" + ImageTag(it) + LinkAndCaption(it)
  }

  /** The markup of a list of entries, one after another. */
  function Join(items: seq<Item>): string {
    if |items| == 0 then "" else ItemHtml(items[0]) + Join(items[1..])
  }

  /** The entries for a list of kept articles, one per article, in order. */
  function Items(kept: seq<Article>, env: Env): (r: seq<Item>)
    ensures |r| == |kept|
    ensures forall i :: 0 <= i < |kept| ==> r[i] == ToItem(kept[i], env)
  {
    if |kept| == 0 then [] else [ToItem(kept[0], env)] + Items(kept[1..], env)
  }

  /** What one pass of the `foreach` appends for one article. */
  function Piece(a: Article, env: Env): string {
    if Relevant(a) then ItemHtml(ToItem(a, env)) else ""
  }

  /** Everything the `foreach` appends between the wrapper's opening and closing. */
  function Body(arts: seq<Article>, env: Env): string {
    if |arts| == 0 then "" else Piece(arts[0], env) + Body(arts[1..], env)
  }

  /** The sidebar markup for a list of articles. */
  function Render(arts: seq<Article>, env: Env): (html: string)
    ensures html == Placeholder <==> |arts| == 0
  {
    if |arts| == 0 then Placeholder
    else
      var html := Open + Body(arts, env) + Close;
      assert html[1] == Open[1] != Placeholder[1];
      html
  }

  /** The plugin's `foreach`: starting from `output`, append each relevant article's
      entry and skip (`continue`) the others. */
  method AppendEntries(output: string, arts: seq<Article>, env: Env) returns (html: string)
    ensures html == output + Join(Items(Kept(arts), env))
  {
    html := output;
    var i := 0;
    assert Body(arts[..0], env) == "";
    while i < |arts|
      invariant 0 <= i <= |arts|
      invariant html == output + Body(arts[..i], env)
    {
      BodySnoc(arts, i, env);
      ghost var before := html;
      if Relevant(arts[i]) {
        html := html + ItemHtml(ToItem(arts[i], env));
      }
      assert html == before + Piece(arts[i], env);
      ConcatAssociative(output, Body(arts[..i], env), Piece(arts[i], env));
      i := i + 1;
    }
    assert arts[..i] == arts;
    BodyIsKeptItems(arts, env);
  }

  /** The whole render step as the plugin writes it: the placeholder for an empty list,
      otherwise the opening, the loop, and the closing. */
  method RenderLoop(arts: seq<Article>, env: Env) returns (html: string)
    ensures html == Render(arts, env)
  {
    if |arts| == 0 {
      return Placeholder;
    }
    html := AppendEntries(Open, arts, env);
    html := html + Close;
    BodyIsKeptItems(arts, env);
  }

  // ----- Lemmas

  lemma {:induction false} BodyAppend(xs: seq<Article>, ys: seq<Article>, env: Env)
    ensures Body(xs + ys, env) == Body(xs, env) + Body(ys, env)
  {
    if |xs| == 0 {
      assert xs + ys == ys;
    } else {
      assert (xs + ys)[1..] == xs[1..] + ys;
      BodyAppend(xs[1..], ys, env);
    }
  }

  /** Regrouping concatenations, proved once for opaque strings so that the markup
      literals never take part in the sequence reasoning. */
  lemma ConcatAssociative(a: string, b: string, c: string)
    ensures (a + b) + c == a + (b + c)
  {
  }

  lemma BodySnoc(arts: seq<Article>, i: nat, env: Env)
    requires i < |arts|
    ensures Body(arts[..i + 1], env) == Body(arts[..i], env) + Piece(arts[i], env)
  {
    assert arts[..i + 1] == arts[..i] + [arts[i]];
    BodyAppend(arts[..i], [arts[i]], env);
    assert Body([arts[i]], env) == Piece(arts[i], env) + Body([], env);
  }

  lemma {:induction false} JoinAppend(xs: seq<Item>, ys: seq<Item>)
    ensures Join(xs + ys) == Join(xs) + Join(ys)
  {
    if |xs| == 0 {
      assert xs + ys == ys;
    } else {
      assert (xs + ys)[1..] == xs[1..] + ys;
      JoinAppend(xs[1..], ys);
    }
  }

  /** Filtering distributes over concatenation: the kept articles of a list are the
      kept articles of its parts, in the same order. With `KeptOne` this pins down
      the filter completely. */
  lemma {:induction false} KeptAppend(xs: seq<Article>, ys: seq<Article>)
    ensures Kept(xs + ys) == Kept(xs) + Kept(ys)
  {
    if |xs| == 0 {
      assert xs + ys == ys;
    } else {
      assert (xs + ys)[1..] == xs[1..] + ys;
      KeptAppend(xs[1..], ys);
    }
  }

  /** A list where every title mentions the topic is kept whole. */
  lemma {:induction false} KeptAll(arts: seq<Article>)
    requires forall i :: 0 <= i < |arts| ==> Relevant(arts[i])
    ensures Kept(arts) == arts
  {
    if |arts| > 0 {
      assert Relevant(arts[0]);
      KeptAll(arts[1..]);
    }
  }

  /** A list none of whose titles mentions the topic is dropped whole. */
  lemma {:induction false} KeptNone(arts: seq<Article>)
    requires forall i :: 0 <= i < |arts| ==> !Relevant(arts[i])
    ensures Kept(arts) == []
  {
    if |arts| > 0 {
      assert !Relevant(arts[0]);
      KeptNone(arts[1..]);
    }
  }

  /** A single article is kept exactly when its title mentions the topic. Together
      with `KeptAppend` this fixes the filter's result for every list. */
  lemma KeptOne(a: Article)
    ensures Kept([a]) == if Relevant(a) then [a] else []
  {
    if Relevant(a) {
      KeptAll([a]);
    } else {
      KeptNone([a]);
    }
  }

  /** The appended markup is exactly one entry per kept article, in input order. */
  lemma {:induction false} BodyIsKeptItems(arts: seq<Article>, env: Env)
    ensures Body(arts, env) == Join(Items(Kept(arts), env))
  {
    if |arts| > 0 {
      BodyIsKeptItems(arts[1..], env);
      var head := if Relevant(arts[0]) then [arts[0]] else [];
      assert Items(head, env) == if Relevant(arts[0]) then [ToItem(arts[0], env)] else [];
      assert Join(Items(head, env)) == Piece(arts[0], env);
      assert Kept(arts) == head + Kept(arts[1..]);
      ItemsAppend(head, Kept(arts[1..]), env);
      JoinAppend(Items(head, env), Items(Kept(arts[1..]), env));
    }
  }

  lemma ItemsAppend(xs: seq<Article>, ys: seq<Article>, env: Env)
    ensures Items(xs + ys, env) == Items(xs, env) + Items(ys, env)
  {
  }

  /** The shape of the output for a non-empty list: the wrapper opening, one entry per
      article whose title mentions the topic, in input order, and the wrapper closing. */
  lemma RenderShape(arts: seq<Article>, env: Env)
    requires |arts| > 0
    ensures var items := Items(Kept(arts), env);
      && Render(arts, env) == Open + Join(items) + Close
      && |items| == |Kept(arts)|
      && (forall i :: 0 <= i < |items| ==> items[i] == ToItem(Kept(arts)[i], env))
  {
    BodyIsKeptItems(arts, env);
  }

  /** A non-empty list none of whose titles mentions the topic renders as the bare
      wrapper, not as the placeholder. */
  lemma RenderNoneRelevant(arts: seq<Article>, env: Env)
    requires |arts| > 0
    requires forall i :: 0 <= i < |arts| ==> !Relevant(arts[i])
    ensures Render(arts, env) == Open + Close
    ensures Render(arts, env) != Placeholder
  {
    KeptNone(arts);
    BodyIsKeptItems(arts, env);
  }

  /** Each entry starts with `<li>`, is followed by an `<img` tag exactly when the image
      url survived, and its link and caption show that same article's title, source and
      date. */
  lemma ItemLayout(a: Article, env: Env)
    ensures var h := ItemHtml(ToItem(a, env));
      && h[..4] == "<li>"
      && (|h| >= 9 && h[4..9] == "<img " <==>
           a.urlToImage.Some? && !PhpEmpty(a.urlToImage.value) && !PhpEmpty(env.escUrl(a.urlToImage.value)))
      && h[|h| - |LinkAndCaption(ToItem(a, env))|..] == LinkAndCaption(ToItem(a, env))
  {
    var it := ToItem(a, env);
    var h := ItemHtml(it);
    assert h == "<li>" + ImageTag(it) + LinkAndCaption(it);
    if HasImage(it) {
      assert h[4..9] == ImageTag(it)[..5];
    } else {
      assert h[4..9] == LinkAndCaption(it)[..5] == "<a hr";
    }
  }

  /** The topic test on two titles: "Child Support Reform Passes" is kept (a match at
      position 0 despite the capitals), "Court Ruling on Garnishment" is dropped. */
  lemma TopicExamples()
    ensures Stripos("Child Support Reform Passes", Topic) == Some(0)
    ensures Stripos("Court Ruling on Garnishment", Topic) == None
  {
    var kept := "Child Support Reform Passes";
    assert MatchesAt(kept, Topic, 0);
    var dropped := "Court Ruling on Garnishment";
    forall j | 0 <= j <= |dropped| - |Topic|
      ensures !MatchesAt(dropped, Topic, j)
    {
      assert Lower(dropped[j + 0]) != Lower(Topic[0]) || Lower(dropped[j + 1]) != Lower(Topic[1]);
    }
  }
}
