/** Publishing the image once per request (ogimage.php:54-68, 187-203): the handler runs after
    each displayed article, skips when it already published in this request or when `og:image`
    is already set, and otherwise writes `og:image` and, when known, its width and height, then
    remembers that it published. */
module Publish {
  import opened Options
  import opened Php
  import opened Candidate
  import opened ImageUrl

  /** A meta tag of the document is stored under its attribute kind (`name`, `property`,
      `http-equiv`) and its name: `setMetaData($name, $content, $attribute)` and
      `getMetaData($name, $attribute)` address that pair, and the attribute defaults to `name`. */
  datatype MetaKey = MetaKey(attribute: string, name: string)

  /** The entries the handler writes, all with the `property` attribute (ogimage.php:191-199). */
  const OgImageKey := MetaKey("property", "og:image")
  const WidthKey := MetaKey("property", "og:image:width")
  const HeightKey := MetaKey("property", "og:image:height")

  /** The entry the handler's guard reads: `getMetaData('og:image')` passes no attribute, so it
      reads the `name` kind (ogimage.php:65). */
  const GuardKey := MetaKey("name", "og:image")

  /** `getMetaData`: the stored content, or "" when there is none. */
  function GetMetaData(metadata: map<MetaKey, string>, key: MetaKey): (content: string)
    ensures key in metadata ==> content == metadata[key]
    ensures key !in metadata ==> content == ""
  {
    if key in metadata then metadata[key] else ""
  }

  /** `!empty($doc->getMetaData('og:image'))`: the guard that leaves an existing image alone. */
  predicate OgImagePresent(metadata: map<MetaKey, string>)
  {
    !Empty(GetMetaData(metadata, GuardKey))
  }

  /** An `og:image` property the handler could have written: present and not empty(). */
  predicate Published(metadata: map<MetaKey, string>)
  {
    OgImageKey in metadata && !Empty(metadata[OgImageKey])
  }

  /** The document's metadata after the `setMetaData` calls of one publish, in their order:
      `og:image`, then the width if positive, then the height if positive. */
  function WriteOgImage(metadata: map<MetaKey, string>, image: OgImage): (r: map<MetaKey, string>)
    ensures OgImageKey in r && r[OgImageKey] == image.path
    ensures image.width > 0 ==> WidthKey in r && r[WidthKey] == Decimal(image.width)
    ensures image.width <= 0 ==> (WidthKey in r <==> WidthKey in metadata)
    ensures image.width <= 0 && WidthKey in metadata ==> r[WidthKey] == metadata[WidthKey]
    ensures image.height > 0 ==> HeightKey in r && r[HeightKey] == Decimal(image.height)
    ensures image.height <= 0 ==> (HeightKey in r <==> HeightKey in metadata)
    ensures image.height <= 0 && HeightKey in metadata ==> r[HeightKey] == metadata[HeightKey]
    ensures forall k :: k != OgImageKey && k != WidthKey && k != HeightKey ==>
      (k in r <==> k in metadata) && (k in metadata ==> r[k] == metadata[k])
  {
    var m := metadata[OgImageKey := image.path];
    var m := if image.width > 0 then m[WidthKey := Decimal(image.width)] else m;
    if image.height > 0 then m[HeightKey := Decimal(image.height)] else m
  }

  /** The request-scoped state the handler sees: its once-per-request flag and the metadata of
      the document being rendered. */
  datatype DocState = DocState(ogImageSet: bool, metadata: map<MetaKey, string>)

  /** The flag is set only once the `og:image` property has been written. */
  predicate Consistent(st: DocState)
  {
    st.ogImageSet ==> Published(st.metadata)
  }

  /** The image the handler would publish for one article, or None when there is no candidate
      or the cleaner leaves no url. `clean` is the host's image-URL cleaner. */
  function PlannedImage(view: View, article: ArticleData, categoryImage: Option<string>,
                        settings: Settings, clean: string -> CleanedImage): (r: Option<OgImage>)
    ensures var c := ResolveCandidate(view, article, categoryImage, settings);
      r.None? <==> c.None? || clean(c.value).url == ""
    ensures r.Some? ==> IsRooted(r.value.path)
    ensures var c := ResolveCandidate(view, article, categoryImage, settings);
      r.Some? ==> var ci := clean(c.value);
        && (IsRooted(ci.url) ==> r.value.path == ci.url)
        && (!IsRooted(ci.url) ==> r.value.path == "/" + ci.url)
        && r.value.width == Dimension(ci.attributes, "width")
        && r.value.height == Dimension(ci.attributes, "height")
  {
    match ResolveCandidate(view, article, categoryImage, settings)
    case None => None
    case Some(raw) => Normalise(clean(raw))
  }

  /** One run of the handler on a state, given the image it would publish. */
  function AfterDisplay(st: DocState, planned: Option<OgImage>): (r: DocState)
    ensures r.ogImageSet <==> st.ogImageSet || (!OgImagePresent(st.metadata) && planned.Some?)
    ensures r != st ==> && !st.ogImageSet && !OgImagePresent(st.metadata) && planned.Some?
                        && r.metadata == WriteOgImage(st.metadata, planned.value)
    ensures planned.None? ==> r == st
  {
    if st.ogImageSet || OgImagePresent(st.metadata) then st
    else
      match planned
      case None => st
      case Some(image) => DocState(true, WriteOgImage(st.metadata, image))
  }

  /** The handler run once per displayed article, in display order. The request ends with the
      flag set exactly when it was set already, or no `og:image` was present and some article
      had an image; only a request that started unpublished, with no `og:image`, changes. */
  function DisplayAll(st: DocState, plans: seq<Option<OgImage>>): (r: DocState)
    ensures r.ogImageSet <==>
      st.ogImageSet || (!OgImagePresent(st.metadata) && exists i :: 0 <= i < |plans| && plans[i].Some?)
    ensures r != st ==> !st.ogImageSet && !OgImagePresent(st.metadata)
    decreases |plans|
  {
    if plans == [] then st
    else
      var r := DisplayAll(AfterDisplay(st, plans[0]), plans[1..]);
      assert forall i :: 1 <= i < |plans| ==> plans[i] == plans[1..][i - 1];
      r
  }

  /** The handler keeps the flag consistent with the metadata when what it publishes is rooted. */
  lemma AfterDisplayConsistent(st: DocState, planned: Option<OgImage>)
    requires Consistent(st)
    requires planned.Some? ==> IsRooted(planned.value.path)
    ensures Consistent(AfterDisplay(st, planned))
  {
  }

  /** After a publish, every later run in the same request changes nothing. */
  lemma {:induction false} NothingAfterPublish(st: DocState, plans: seq<Option<OgImage>>)
    requires st.ogImageSet
    ensures DisplayAll(st, plans) == st
    decreases |plans|
  {
    if plans != [] {
      NothingAfterPublish(AfterDisplay(st, plans[0]), plans[1..]);
    }
  }

  /** A run while `og:image` is already set by someone else changes nothing either. */
  lemma {:induction false} NothingOverExistingImage(st: DocState, plans: seq<Option<OgImage>>)
    requires OgImagePresent(st.metadata)
    ensures DisplayAll(st, plans) == st
    decreases |plans|
  {
    if plans != [] {
      NothingOverExistingImage(AfterDisplay(st, plans[0]), plans[1..]);
    }
  }

  /** Once per request: a page that displays several articles publishes the image of the first
      article that has one, and only that. */
  lemma {:induction false} OnePublishPerRequest(st: DocState, plans: seq<Option<OgImage>>)
    ensures DisplayAll(st, plans) == AfterDisplay(st, FirstSome(plans))
    decreases |plans|
  {
    if plans == [] {
    } else if st.ogImageSet {
      NothingAfterPublish(st, plans);
    } else if OgImagePresent(st.metadata) {
      NothingOverExistingImage(st, plans);
    } else if plans[0].Some? {
      FirstSomeAt(plans, 0);
      NothingAfterPublish(AfterDisplay(st, plans[0]), plans[1..]);
    } else {
      OnePublishPerRequest(st, plans[1..]);
    }
  }

  /** The guard reads only the `name` entry: an `og:image` property set by another component
      does not stop a run, which replaces it. */
  lemma OtherPropertyImageReplaced(other: string, image: OgImage)
    ensures var st := DocState(false, map[OgImageKey := other]);
      AfterDisplay(st, Some(image)) == DocState(true, WriteOgImage(st.metadata, image))
      && AfterDisplay(st, Some(image)).metadata[OgImageKey] == image.path
  {
  }

  /** An `og:image` name entry that is empty() ("0") does not stop a run either; it stays as it
      was, and the property is written next to it. */
  lemma ZeroNameEntryKept(image: OgImage)
    ensures var r := AfterDisplay(DocState(false, map[GuardKey := "0"]), Some(image));
      r.ogImageSet && r.metadata[GuardKey] == "0" && r.metadata[OgImageKey] == image.path
  {
  }

  /** Width and height entries change only in a run that writes `og:image`, and only to the
      decimal form of a positive value. */
  lemma DimensionsOnlyWithImage(st: DocState, planned: Option<OgImage>)
    ensures var r := AfterDisplay(st, planned);
      && ((WidthKey in r.metadata <==> WidthKey in st.metadata)
          || (planned.Some? && planned.value.width > 0 && r.metadata[OgImageKey] == planned.value.path))
      && (WidthKey in r.metadata && WidthKey in st.metadata && r.metadata[WidthKey] != st.metadata[WidthKey]
          ==> planned.Some? && r.metadata[WidthKey] == Decimal(planned.value.width))
      && ((HeightKey in r.metadata <==> HeightKey in st.metadata)
          || (planned.Some? && planned.value.height > 0 && r.metadata[OgImageKey] == planned.value.path))
      && (HeightKey in r.metadata && HeightKey in st.metadata && r.metadata[HeightKey] != st.metadata[HeightKey]
          ==> planned.Some? && r.metadata[HeightKey] == Decimal(planned.value.height))
  {
  }

  /** The request context of one page render: the handler's once-per-request flag (a static
      variable of the handler) and the metadata of the document. */
  class RequestContext {
    var ogImageSet: bool
    var metadata: map<MetaKey, string>

    function State(): DocState
      reads this
    {
      DocState(ogImageSet, metadata)
    }

    ghost predicate Valid()
      reads this
    {
      Consistent(State())
    }

    /** A new request: nothing published yet, the document's metadata as other components left it. */
    constructor (metadata: map<MetaKey, string>)
      ensures Valid() && !ogImageSet && this.metadata == metadata
    {
      ogImageSet := false;
      this.metadata := metadata;
    }

    /** The `setMetaData` calls of a publish, in the handler's order, made before the flag is set. */
    method SetImageMetadata(url: string, width: int, height: int)
      requires !ogImageSet
      modifies this
      ensures Valid()
      ensures ogImageSet == old(ogImageSet)
      ensures metadata == WriteOgImage(old(metadata), OgImage(url, width, height))
    {
      metadata := metadata[OgImageKey := url];
      if width > 0 {
        metadata := metadata[WidthKey := Decimal(width)];
      }
      if height > 0 {
        metadata := metadata[HeightKey := Decimal(height)];
      }
    }

    /** The handler for one displayed article. It returns the text appended to the article,
        which is always empty. */
    method OnContentAfterDisplay(view: View, article: ArticleData, categoryImage: Option<string>,
                                 settings: Settings, clean: string -> CleanedImage)
      returns (html: string)
      requires Valid()
      modifies this
      ensures Valid()
      ensures html == ""
      ensures State() == AfterDisplay(old(State()), PlannedImage(view, article, categoryImage, settings, clean))
    {
      html := "";
      ghost var planned := PlannedImage(view, article, categoryImage, settings, clean);
      if ogImageSet {
        return;
      }
      var existingOg := GetMetaData(metadata, GuardKey);
      if !Empty(existingOg) {
        return;
      }
      var rawOgImage := ResolveCandidate(view, article, categoryImage, settings);
      if rawOgImage.None? {
        assert planned.None?;
        return;
      }
      var img := clean(rawOgImage.value);
      var url := img.url;
      if url == "" {
        assert planned.None?;
        return;
      }
      if url[0] != '/' {
        url := "/" + url;
      }
      var width, height := 0, 0;
      if "width" in img.attributes && !Empty(img.attributes["width"]) {
        width := IntCast(img.attributes["width"]);
      }
      if "height" in img.attributes && !Empty(img.attributes["height"]) {
        height := IntCast(img.attributes["height"]);
      }
      assert planned == Some(OgImage(url, width, height));
      SetImageMetadata(url, width, height);
      ogImageSet := true;
    }
  }

  /** Worked case: in a featured listing the category image is planned, rooted, with the width
      the cleaner read and no height, and only `og:image` and its width are written. */
  lemma FeaturedListingPlan(clean: string -> CleanedImage)
    requires clean("images/pic.jpg") == CleanedImage("images/pic.jpg", map["width" := "300", "height" := "0"])
    ensures PlannedImage(Featured, ArticleData("8", None, Some("images/a.jpg"), None, ""),
                         Some("images/pic.jpg"), DefaultSettings, clean)
         == Some(OgImage("/images/pic.jpg", 300, 0))
    ensures WriteOgImage(map[], OgImage("/images/pic.jpg", 300, 0))
         == map[OgImageKey := "/images/pic.jpg", WidthKey := "300"]
  {
    var article := ArticleData("8", None, Some("images/a.jpg"), None, "");
    CategoryImageWins(Featured, article, "images/pic.jpg", DefaultSettings);
    WidthWithoutHeight();
    WidthOnlyWrite();
  }

  lemma WidthOnlyWrite()
    ensures WriteOgImage(map[], OgImage("/images/pic.jpg", 300, 0))
         == map[OgImageKey := "/images/pic.jpg", WidthKey := "300"]
  {
    assert Decimal(3) == "3" && Decimal(30) == "30" && Decimal(300) == "300";
  }

  /** Worked case, run through the handler: the first article of a featured page publishes the
      category image; the next article displayed in the same request changes nothing. */
  method FeaturedPage(clean: string -> CleanedImage)
    requires clean("images/pic.jpg") == CleanedImage("images/pic.jpg", map["width" := "300", "height" := "0"])
  {
    FeaturedListingPlan(clean);
    var request := new RequestContext(map[]);
    var first := ArticleData("8", None, Some("images/a.jpg"), None, "");
    var _ := request.OnContentAfterDisplay(Featured, first, Some("images/pic.jpg"), DefaultSettings, clean);
    assert request.metadata == map[OgImageKey := "/images/pic.jpg", WidthKey := "300"];
    var second := ArticleData("9", None, Some("images/b.jpg"), None, "");
    var _ := request.OnContentAfterDisplay(Article, second, None, DefaultSettings, clean);
    assert request.metadata == map[OgImageKey := "/images/pic.jpg", WidthKey := "300"];
  }
}
