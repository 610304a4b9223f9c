/** Choice of the raw image reference for `og:image` (ogimage.php:76-156): a category image in
    blog and featured listings, otherwise the article's own images in a fixed order, otherwise the
    configured default image, otherwise nothing. */
module Candidate {
  import opened Options
  import opened Php
  import ImgScan

  /** The three `com_content` views the handler runs in. */
  datatype View = Article | Category | Featured

  /** The decoded `images` JSON of an article, when it decodes to an object. Each field is unset
      when the object lacks it. */
  datatype ImageSet = ImageSet(imageFulltext: Option<string>, imageIntro: Option<string>)

  /** What the handler reads from the article object. `images` is None when the property is
      empty or does not decode to an object; `catId` is the raw category id, "" when unset. */
  datatype ArticleData = ArticleData(
    catId: string,
    images: Option<ImageSet>,
    imageFulltext: Option<string>,
    imageIntro: Option<string>,
    text: string)

  /** The plugin parameters `use_article_image` (default on) and `default_image` (default ""). */
  datatype Settings = Settings(useArticleImage: bool, defaultImage: string)

  const DefaultSettings := Settings(true, "")

  predicate IsListing(view: View)
  {
    view == Category || view == Featured
  }

  /** The first image of the article body, consulted only when the text is not empty(): the
      value captured by the match of the image pattern that PCRE reports. */
  function BodyImage(text: string): (r: Option<string>)
    ensures r.Some? ==> !Empty(text) && exists t, j :: ImgScan.FirstMatch(text, t, j, r.value)
    ensures r.None? <==> Empty(text) || forall t, j, v :: !ImgScan.ImgMatch(text, t, j, v)
  {
    if Empty(text) then None else ImgScan.FirstImgSrc(text)
  }

  /** The article's own image, step by step as the handler looks for it when
      `use_article_image` is on: each `fromX` is the value of `$rawOgImage` after that step,
      "" while nothing has been found. */
  function ArticleImage(article: ArticleData): (r: string)
    ensures r != "" ==> Some(r) in ArticleSources(article)
    ensures r == "" <==> forall k :: 0 <= k < 5 ==> ArticleSources(article)[k].None?
  {
    var fromJson :=
      if article.images.Some? then
        if !EmptyField(article.images.value.imageFulltext) then article.images.value.imageFulltext.value
        else if !EmptyField(article.images.value.imageIntro) then article.images.value.imageIntro.value
        else ""
      else "";
    var fromProperties :=
      if fromJson != "" then fromJson
      else if !EmptyField(article.imageFulltext) then article.imageFulltext.value
      else if !EmptyField(article.imageIntro) then article.imageIntro.value
      else "";
    if fromProperties == "" && !Empty(article.text) then
      match ImgScan.FirstImgSrc(article.text)
      case Some(src) => src
      case None => ""
    else fromProperties
  }

  /** The handler's choice, step by step as the handler makes it: `fromCategory` and
      `fromArticle` are the value of `$rawOgImage` after those steps, "" while nothing has been
      found. `categoryImage` is the category's `image` parameter, None when the category lookup
      finds no category. */
  function ResolveCandidate(view: View, article: ArticleData, categoryImage: Option<string>,
                            settings: Settings): (r: Option<string>)
    ensures r.Some? ==> r.value != ""
  {
    var fromCategory :=
      if IsListing(view) && !Empty(article.catId) && categoryImage.Some? && categoryImage.value != ""
      then categoryImage.value else "";
    if fromCategory != "" then
      Some(fromCategory)
    else if settings.useArticleImage then
      var fromArticle := ArticleImage(article);
      if fromArticle != "" then Some(fromArticle)
      else if settings.defaultImage != "" then Some(settings.defaultImage)
      else None
    else if settings.defaultImage != "" then
      Some(settings.defaultImage)
    else
      None
  }

  /** A property value, kept when PHP's empty() is false for it. */
  function Filled(field: Option<string>): (r: Option<string>)
    ensures r.Some? <==> !EmptyField(field)
    ensures r.Some? ==> r == field
  {
    if EmptyField(field) then None else field
  }

  /** A parameter value, kept when it is not the empty string (`!== ''`): "0" is kept. */
  function NonBlank(s: string): (r: Option<string>)
    ensures r.Some? <==> s != ""
    ensures r.Some? ==> r.value == s
  {
    if s == "" then None else Some(s)
  }

  /** The article's own image sources, in priority order. */
  function ArticleSources(article: ArticleData): (xs: seq<Option<string>>)
    ensures |xs| == 5
  {
    var json := if article.images.Some? then article.images.value else ImageSet(None, None);
    [ Filled(json.imageFulltext),
      Filled(json.imageIntro),
      Filled(article.imageFulltext),
      Filled(article.imageIntro),
      BodyImage(article.text) ]
  }

  /** The category image as a source: only in listings, only with a non-empty category id. */
  function CategorySource(view: View, catId: string, categoryImage: Option<string>): Option<string>
  {
    if IsListing(view) && !Empty(catId) && categoryImage.Some? then NonBlank(categoryImage.value) else None
  }

  /** Every source the handler may consult, in priority order; each entry is already filtered
      by the emptiness test the handler applies to that source. */
  function Sources(view: View, article: ArticleData, categoryImage: Option<string>,
                   settings: Settings): (xs: seq<Option<string>>)
    ensures |xs| == if settings.useArticleImage then 7 else 2
  {
    [CategorySource(view, article.catId, categoryImage)]
    + (if settings.useArticleImage then ArticleSources(article) else [])
    + [NonBlank(settings.defaultImage)]
  }

  /** The article step finds the first present article source. */
  lemma ArticleImageIsFirstSource(article: ArticleData)
    ensures NonBlank(ArticleImage(article)) == FirstSome(ArticleSources(article))
  {
    var xs := ArticleSources(article);
    if xs[0].Some? {
      FirstSomeAt(xs, 0);
    } else if xs[1].Some? {
      FirstSomeAt(xs, 1);
    } else if xs[2].Some? {
      FirstSomeAt(xs, 2);
    } else if xs[3].Some? {
      FirstSomeAt(xs, 3);
    } else if xs[4].Some? {
      FirstSomeAt(xs, 4);
    }
  }

  /** The step-by-step choice is the first present entry of the priority list. */
  lemma ResolveIsFirstSource(view: View, article: ArticleData, categoryImage: Option<string>,
                             settings: Settings)
    ensures ResolveCandidate(view, article, categoryImage, settings)
         == FirstSome(Sources(view, article, categoryImage, settings))
  {
    var first := [CategorySource(view, article.catId, categoryImage)];
    var middle := if settings.useArticleImage then ArticleSources(article) else [];
    var last := [NonBlank(settings.defaultImage)];
    assert Sources(view, article, categoryImage, settings) == first + (middle + last);
    FirstSomeAppend(first, middle + last);
    FirstSomeAppend(middle, last);
    if settings.useArticleImage {
      ArticleImageIsFirstSource(article);
    }
  }

  /** In a category or featured listing with a category id, a non-empty category image is the
      candidate whatever the article's images and the settings are. */
  lemma CategoryImageWins(view: View, article: ArticleData, image: string, settings: Settings)
    requires IsListing(view) && !Empty(article.catId) && image != ""
    ensures ResolveCandidate(view, article, Some(image), settings) == Some(image)
  {
  }

  /** In the article view the category image is never consulted. */
  lemma ArticleViewIgnoresCategory(article: ArticleData, image1: Option<string>,
                                   image2: Option<string>, settings: Settings)
    ensures ResolveCandidate(Article, article, image1, settings)
         == ResolveCandidate(Article, article, image2, settings)
  {
  }

  /** With `use_article_image` off, the candidate is the category image (in listings), else the
      default image, else nothing; no image field and no body text of the article matters. */
  lemma ArticleImagesOff(view: View, article: ArticleData, categoryImage: Option<string>,
                         settings: Settings, other: ArticleData)
    requires !settings.useArticleImage && other.catId == article.catId
    ensures ResolveCandidate(view, article, categoryImage, settings)
         == if CategorySource(view, article.catId, categoryImage).Some?
            then CategorySource(view, article.catId, categoryImage)
            else NonBlank(settings.defaultImage)
    ensures ResolveCandidate(view, article, categoryImage, settings)
         == ResolveCandidate(view, other, categoryImage, settings)
  {
  }

  /** The priority order: a source that offers an image, when every earlier source offered
      none, is the candidate. */
  lemma EarliestSourceWins(view: View, article: ArticleData, categoryImage: Option<string>,
                           settings: Settings, i: int)
    requires var xs := Sources(view, article, categoryImage, settings);
      0 <= i < |xs| && xs[i].Some? && forall k :: 0 <= k < i ==> xs[k].None?
    ensures ResolveCandidate(view, article, categoryImage, settings)
         == Sources(view, article, categoryImage, settings)[i]
  {
    ResolveIsFirstSource(view, article, categoryImage, settings);
    FirstSomeAt(Sources(view, article, categoryImage, settings), i);
  }

  /** Conversely, a candidate always comes from some source all of whose predecessors were
      empty, and there is no candidate exactly when every source is empty. */
  lemma CandidateFromEarliestSource(view: View, article: ArticleData,
                                    categoryImage: Option<string>, settings: Settings)
    ensures var r := ResolveCandidate(view, article, categoryImage, settings);
      var xs := Sources(view, article, categoryImage, settings);
      && (r.Some? ==> exists i :: 0 <= i < |xs| && xs[i] == r && forall k :: 0 <= k < i ==> xs[k].None?)
      && (r.None? <==> forall k :: 0 <= k < |xs| ==> xs[k].None?)
  {
    ResolveIsFirstSource(view, article, categoryImage, settings);
  }

  /** A body without any match of the image pattern offers no candidate. */
  lemma BodyWithoutImageTag(text: string)
    requires forall t, j, v :: !ImgScan.ImgMatch(text, t, j, v)
    ensures BodyImage(text).None?
  {
  }

  /** Worked case: a structured fulltext image is the candidate in the article view, and the
      category image beats it in the featured view. */
  lemma CategoryBeatsArticleImage()
    ensures var a := ArticleData("8", Some(ImageSet(Some("images/a.jpg"), None)), None, None, "");
      && ResolveCandidate(Article, a, Some("images/cat.jpg"), DefaultSettings) == Some("images/a.jpg")
      && ResolveCandidate(Featured, a, Some("images/cat.jpg"), DefaultSettings) == Some("images/cat.jpg")
  {
  }

  /** Worked case: with every image field empty (an intro image of "0" is empty too), the first
      image of the body beats the default image. */
  lemma BodyImageBeatsDefault()
    ensures ResolveCandidate(Article, ArticleData("", None, None, Some("0"), ImgScan.SampleBody), None,
                             Settings(true, "images/def.jpg"))
         == Some("images/body.png")
  {
    ImgScan.SampleBodyScan();
  }

  /** Worked case: with article images off and no default image there is no candidate, even when
      the article has images. */
  lemma NothingWithoutDefault()
    ensures ResolveCandidate(Category, ArticleData("8", None, Some("images/a.jpg"), None, ""), None,
                             Settings(false, ""))
         == None
  {
  }
}
