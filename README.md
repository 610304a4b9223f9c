# og:image for Joomla content pages — a Dafny model

The `ogimage` content plugin runs after each article that Joomla's `com_content` component
displays: a single article, a category blog or the featured listing. For each page it picks
one representative image and writes it to the document's Open Graph metadata as `og:image`.
When the image's width and height are known, it also writes `og:image:width` and
`og:image:height`. It does this at most once per request.

This project models that handler, `PlgContentOgimage::onContentAfterDisplay`, in three parts:

- **Candidate selection** (`candidate.dfy`, module `Candidate`). A pure function
  `ResolveCandidate` follows the handler's chain of steps. The fixed priority list `Sources` is
  an independent reference, and `FirstSome` (in `options.dfy`) picks the first present entry of
  that list. The lemma `ResolveIsFirstSource` proves that the two agree. The order is:
  1. The category image, only in the category and featured views, and only when the article
     has a category id.
  2. If `use_article_image` is on, the article's own images in this order:
     - the fulltext image of the `images` JSON;
     - the intro image of the `images` JSON;
     - the `image_fulltext` property;
     - the `image_intro` property;
     - the first `<img … src=…>` of the article text.
  3. The `default_image` parameter.
  4. Otherwise nothing.

  Emptiness differs by step, as in the code:
  - The article-image steps use PHP's `empty()`, so `"0"` counts as empty. This is `Php.Empty`.
  - The category-image and default-image steps test `!== ''`, so `"0"` is a valid image.
- **The body scan** (`imgscan.dfy`, module `ImgScan`). The pattern is
  `#<img[^>]+src=["']([^"']+)["']#i`. It is defined declaratively by `ImgMatch` (the pattern
  matches at a position) and `FirstMatch` (the match PCRE reports). `FirstImgSrc` is an explicit
  scanner proved to return exactly that match. The match PCRE reports has two properties:
  - It starts at the leftmost possible position.
  - For that start, the greedy `[^>]+` backtracks from its longest extent. So the last `src=`
    before the tag's first `>` wins. The capture is the whole run of non-quote characters, and
    it must be followed by a quote. Letters match regardless of ASCII case.
- **Normalisation and publishing** (`imageurl.dfy`, module `ImageUrl`, and `publish.dfy`,
  module `Publish`).
  - The host's image-URL cleaner is a function parameter. An empty url gives up. Otherwise the
    path gets a leading "/" unless it already has one.
  - Width and height are PHP `(int)` casts of the cleaner's attributes, and are written only
    when positive.
  - The document's meta tags are stored, as Joomla's `Document` stores them, under an
    attribute kind and a name. The handler writes the `property` kind. Its guard calls
    `getMetaData('og:image')` without an attribute, so it reads the `name` kind.
  - The per-request `static $ogImageSet` flag and the document metadata are the fields of the
    class `RequestContext`. Its method `OnContentAfterDisplay` mirrors the handler and is proved
    equal to the pure transition `AfterDisplay`.
  - `DisplayAll` runs the handler once per displayed article. The lemma `OnePublishPerRequest`
    proves that a whole page publishes the image of the first article that has one, and nothing
    else.

`Php` (in `php.dfy`) holds the PHP value semantics used throughout:
- `empty()` on strings;
- the `(int)` cast of a string;
- `(string)` of a non-negative int.

Details of the code's behaviour a reader might not expect:
- Emptiness is not uniform: `"0"` is empty for the article-image fields, and so is an empty
  or `"0"` category id. It is a valid value for the category and default images.
- The "og:image already set" test is made inside the handler (ogimage.php:64-68), after the
  per-request flag test. It reads the `name` entry only, so an `og:image` property set by
  another component does not stop the handler, which replaces it. It uses `empty()`, so a
  `name` entry of `"0"` does not stop it either; that entry stays, and the property is written
  beside it.
- The flag is set only after a successful publish. A request whose first articles yield no image
  keeps trying with the following ones.
- The normaliser adds "/" to any url that lacks it, absolute urls included. A body image
  `https://cdn.example/a.jpg` that the cleaner leaves unchanged is published as
  `/https://cdn.example/a.jpg`.

## Model

| member | source | states |
|---|---|---|
| `Candidate.ResolveCandidate` | ogimage.php:76-156 | The handler's choice of raw image reference; any candidate it returns is a non-empty string |
| `Candidate.ResolveIsFirstSource` | ogimage.php:76-156 | The step-by-step choice equals the first present entry of the fixed priority list: category image, JSON fulltext, JSON intro, property fulltext, property intro, first body image, default image |
| `Candidate.ArticleImage` | ogimage.php:99-132 | With article images on, what the article steps find is one of the five article sources, and they find nothing exactly when all five are empty |
| `Candidate.ArticleImageIsFirstSource` | ogimage.php:99-143 | With article images on, the article steps find the first present of: JSON fulltext, JSON intro, property fulltext, property intro, first body image |
| `Candidate.EarliestSourceWins` | ogimage.php:98-143 | A source that offers an image, when every earlier source offered none, is the candidate |
| `Candidate.CandidateFromEarliestSource` | ogimage.php:98-156 | A candidate always comes from a source all of whose predecessors were empty; there is no candidate exactly when every source is empty |
| `Candidate.CategoryImageWins` | ogimage.php:81-98 | In category and featured views with a non-empty catid, a non-empty category image is the candidate whatever the article's images and the settings |
| `Candidate.ArticleViewIgnoresCategory` | ogimage.php:81 | In the article view the result does not depend on the category image |
| `Candidate.ArticleImagesOff` | ogimage.php:144-155 | With use_article_image off, the candidate is the category image (listings) or else the default image or else nothing, and no article image field or body text changes it |
| `Candidate.BodyImage` | ogimage.php:128-132 | A body image is found only in a body that is not empty(), and is the capture of the match PCRE reports for the pattern (leftmost, then longest); none is found exactly when the body is empty() or the pattern matches nowhere in it |
| `Candidate.BodyWithoutImageTag` | ogimage.php:128-132 | A body in which the pattern matches nowhere offers no candidate |
| `Candidate.CategoryBeatsArticleImage` | ogimage.php:81-114 | Worked case: a JSON fulltext image is chosen in the article view, and the category image beats it in the featured view |
| `Candidate.BodyImageBeatsDefault` | ogimage.php:119-143 | Worked case: with every image field empty (an intro of "0" included), the first body image beats the default image |
| `Candidate.NothingWithoutDefault` | ogimage.php:144-155 | Worked case: article images off and no default image gives no candidate even when the article has images |
| `ImgScan.FirstImgSrc` | ogimage.php:129-131 | The scan returns the capture of the leftmost, longest match of the pattern, and nothing exactly when the pattern matches nowhere |
| `ImgScan.FirstImgSrcShape` | ogimage.php:128-132 | A scan result is non-empty, has no quote characters and stands after a caseless `src=` that follows a caseless `<img` with no `>` between them |
| `ImgScan.FirstImgSrcIsFirstMatch` | ogimage.php:129 | Any match that is leftmost and then longest is the one the scan reports (the scan is exactly PCRE's match) |
| `ImgScan.SrcAttrUnique` | ogimage.php:129 | At one `src=` position the captured value is determined |
| `ImgScan.MatchFrom` | ogimage.php:129 | The search over start positions finds the leftmost match at or after a position, or proves there is none |
| `ImgScan.MatchAtTag` | ogimage.php:129 | For one `<img` start, the greatest end of `[^>]+` with a quoted `src=` value after it, or none |
| `ImgScan.SampleBodyScan` | ogimage.php:129-130 | Worked case: `<img src="images/body.png">` yields `images/body.png` verbatim |
| `ImgScan.LastSrcOfTagWins` | ogimage.php:129 | The greedy `[^>]+` makes a later `data-src="b"` win over `src="a"` in the same tag |
| `ImgScan.CloseInsideAttributeHidesSrc` | ogimage.php:129 | A `>` in an attribute before `src` ends the tag for the pattern: no match |
| `Php.Empty` | ogimage.php:179-184 | `empty()` holds for "" and "0" only, and every such string casts to 0 |
| `Php.IntCast` | ogimage.php:180-184 | A digit string casts to its decimal value, and a "-" followed by a digit string casts to minus that value |
| `Php.IntCastOfDecimal` | ogimage.php:180 | The `(int)` cast reads back the `(string)` form of any non-negative int |
| `Php.IntCastOfNoDigits` | ogimage.php:184 | A string without digits casts to 0 |
| `Php.Decimal` | ogimage.php:194 | `(string)` of an int is a non-empty digit string without leading zero |
| `ImageUrl.RootedPath` | ogimage.php:170-173 | The path starts with "/", ends with the url and is at most one character longer; a url already starting with "/" is unchanged |
| `ImageUrl.RootedPathIdempotent` | ogimage.php:170-173 | Rooting a rooted path changes nothing |
| `ImageUrl.Dimension` | ogimage.php:176-185 | A present attribute that is not empty() gives its `(int)` cast; a missing or empty() attribute gives 0 |
| `ImageUrl.DimensionIsCast` | ogimage.php:179-185 | The empty() test in front of the cast changes nothing: any present attribute gives its `(int)` cast |
| `ImageUrl.Normalise` | ogimage.php:163-185 | No image exactly when the cleaned url is empty; otherwise a rooted path ending with the url, equal to the url when that is already rooted, with width and height read from the attributes |
| `ImageUrl.DimensionOfDecimal` | ogimage.php:179-181 | A positive dimension written in decimal is read as that number |
| `ImageUrl.DimensionWithoutDigits` | ogimage.php:183-185 | A dimension such as "auto" is unknown (0) |
| `ImageUrl.WidthWithoutHeight` | ogimage.php:176-185 | Worked case: width "300", height "0" give width 300 and an unknown height |
| `Publish.WriteOgImage` | ogimage.php:191-199 | After a publish `og:image` is the path; width/height entries are the decimal value when positive and are otherwise left as they were; every other entry is unchanged |
| `Publish.PlannedImage` | ogimage.php:163-185 | Nothing is planned exactly when there is no candidate or the cleaned url is empty; otherwise the plan is the candidate's cleaned url, kept when it starts with "/" and given a leading "/" otherwise, with the width and height read from the cleaned attributes |
| `Publish.AfterDisplay` | ogimage.php:58-68 | One handler run sets the flag exactly when it was unset, no `og:image` name entry that is not empty() was present and an image was planned; any change is the write of that image |
| `Publish.AfterDisplayConsistent` | ogimage.php:191-201 | The flag is only ever set together with a written, non-empty `og:image` property |
| `Publish.DisplayAll` | ogimage.php:56-68 | Over a page the flag ends set exactly when it was set already, or no `og:image` name entry was present and some article had an image; only a request that started unpublished and without that entry changes |
| `Publish.NothingAfterPublish` | ogimage.php:58-62 | Once the flag is set, every later run in the request changes nothing |
| `Publish.NothingOverExistingImage` | ogimage.php:64-68 | While an `og:image` name entry that is not empty() is present, runs change nothing |
| `Publish.OtherPropertyImageReplaced` | ogimage.php:64-68 | An `og:image` property set by another component does not stop a run, which replaces it |
| `Publish.ZeroNameEntryKept` | ogimage.php:64-68 | A `name` entry of "0" does not stop a run; it stays as it was, and the property is written beside it |
| `Publish.OnePublishPerRequest` | ogimage.php:56-62 | A page of several articles ends in the state of one run with the first article that has an image |
| `Publish.DimensionsOnlyWithImage` | ogimage.php:191-199 | Width and height entries appear or change only in a run that writes `og:image`, and only to the decimal form of the planned value |
| `Publish.FeaturedListingPlan` | ogimage.php:81-93 | Worked case: the featured view plans the category image, rooted, with width 300 and no height |
| `Publish.WidthOnlyWrite` | ogimage.php:191-199 | Worked case: a publish with width 300 and height 0 writes only `og:image` and `og:image:width` = "300" |
| `Publish.RequestContext.constructor` | ogimage.php:58 | A request starts with the flag unset and the document's metadata as given |
| `Publish.RequestContext.SetImageMetadata` | ogimage.php:191-199 | Called before the flag is set, the three `setMetaData` calls produce `WriteOgImage` of the old metadata, leave the flag alone and keep the request consistent |
| `Publish.RequestContext.OnContentAfterDisplay` | ogimage.php:54-203 | The handler returns "" and moves the request state exactly as `AfterDisplay` does with the planned image, keeping the flag consistent with the metadata |

## Left out

- Host gating (ogimage.php:31-52): the site-client check, the `option` check and reading the
  view are not modelled. The handler takes one of the three allowed views as a `View` value.
- The category lookup `Categories::getInstance(...)->get(...)->getParams()` (ogimage.php:82-87)
  is framework code. Its result is an input: None when no category is found, otherwise the
  string value of the `image` parameter.
- `json_decode` of the `images` property (ogimage.php:106-108) is not modelled. The decoded
  object is an optional record of two optional strings. A property that is empty, is not JSON
  or does not decode to an object is the one case None. Non-string JSON field values (numbers,
  booleans) are not modelled.
- The article properties are modelled as strings or unset strings. PHP values of other types
  in `catid`, `image_fulltext`, `image_intro` or `text` are not modelled.
- `HTMLHelper::_('cleanImageURL', ...)` (ogimage.php:163) is not part of this model. It is the
  uninterpreted function parameter `clean`, so no rule for media-manager references or
  url parameters is assumed.
- Php.IntCast: models leading whitespace, an optional sign and leading decimal digits. It does
  not model exponent notation ("1e3") or integer overflow.
- ImgScan.FirstImgSrc: case folding is ASCII only. PCRE's backtracking limits are not modelled
  (on such an error `preg_match` returns false, which the handler also treats as no match).
- Joomla's `Document` class is not part of this model. Its meta-tag store is a map keyed by
  attribute kind and name. `getMetaData` reads the `name` kind when no attribute is passed and
  gives "" for a missing entry. Its special handling of `generator` and `description` does not
  concern `og:image` and is left out.
- The `static` flag is a field of a request object created per request. Resetting it between
  requests, and sharing it between plugin instances, is PHP runtime behaviour and is left out.
