/** From the chosen reference to the image that is published (ogimage.php:163-185): the host's
    image-URL cleaner gives a url and attributes, an empty url gives up, the path is made to start
    with "/", and width and height are read as integers. */
module ImageUrl {
  import opened Options
  import opened Php

  /** What the host's image-URL cleaner returns: the bare url and the attributes it read from the
      reference, width and height among them. Its rules are not part of this model: the handler
      receives it as a function. */
  datatype CleanedImage = CleanedImage(url: string, attributes: map<string, string>)

  /** The image to publish: its path and the integer width and height, where a value that is
      not positive means "unknown". */
  datatype OgImage = OgImage(path: string, width: int, height: int)

  predicate IsRooted(path: string)
  {
    |path| > 0 && path[0] == '/'
  }

  /** The url with a "/" put in front unless it already starts with one. */
  function RootedPath(url: string): (path: string)
    requires url != ""
    ensures IsRooted(path)
    ensures |url| <= |path| <= |url| + 1 && path[|path| - |url|..] == url
    ensures IsRooted(url) ==> path == url
  {
    if url[0] != '/' then "/" + url else url
  }

  /** `(int)` of an attribute, or 0 when the attribute is missing or empty(). */
  function Dimension(attributes: map<string, string>, key: string): (n: int)
    ensures key in attributes && !Empty(attributes[key]) ==> n == IntCast(attributes[key])
    ensures key !in attributes ==> n == 0
    ensures key in attributes && Empty(attributes[key]) ==> n == 0
  {
    if key in attributes && !Empty(attributes[key]) then IntCast(attributes[key]) else 0
  }

  /** The cleaned reference as it is published, or None when the cleaner left no url. */
  function Normalise(image: CleanedImage): (r: Option<OgImage>)
    ensures r.None? <==> image.url == ""
    ensures r.Some? ==> IsRooted(r.value.path)
    ensures r.Some? ==> var p := r.value.path;
      |image.url| <= |p| <= |image.url| + 1 && p[|p| - |image.url|..] == image.url
    ensures r.Some? && IsRooted(image.url) ==> r.value.path == image.url
    ensures r.Some? ==> r.value.width == Dimension(image.attributes, "width")
    ensures r.Some? ==> r.value.height == Dimension(image.attributes, "height")
  {
    if image.url == "" then None
    else Some(OgImage(RootedPath(image.url), Dimension(image.attributes, "width"),
                      Dimension(image.attributes, "height")))
  }

  /** Making a path rooted twice changes nothing more. */
  lemma RootedPathIdempotent(url: string)
    requires url != ""
    ensures RootedPath(RootedPath(url)) == RootedPath(url)
  {
  }

  /** A positive dimension written in decimal is read back as that number. */
  lemma DimensionOfDecimal(attributes: map<string, string>, key: string, n: nat)
    requires n > 0 && key in attributes && attributes[key] == Decimal(n)
    ensures Dimension(attributes, key) == n
  {
    IntCastOfDecimal(n);
  }

  /** The `empty()` test in front of the cast changes nothing: a present attribute gives its
      `(int)` cast, because an empty() string casts to 0. */
  lemma DimensionIsCast(attributes: map<string, string>, key: string)
    requires key in attributes
    ensures Dimension(attributes, key) == IntCast(attributes[key])
  {
  }

  /** A dimension without digits, such as "auto", is unknown. */
  lemma DimensionWithoutDigits(attributes: map<string, string>, key: string)
    requires key in attributes && forall i :: 0 <= i < |attributes[key]| ==> !IsDigit(attributes[key][i])
    ensures Dimension(attributes, key) == 0
  {
    IntCastOfNoDigits(attributes[key]);
  }

  lemma CastOfThreeHundred()
    ensures IntCast("300") == 300
  {
    assert AllDigits("300");
    assert "300"[..2] == "30" && "30"[..1] == "3" && "3"[..0] == "";
  }

  /** Worked case: width "300" and height "0" give width 300 and an unknown height. */
  lemma WidthWithoutHeight()
    ensures Normalise(CleanedImage("images/pic.jpg", map["width" := "300", "height" := "0"]))
         == Some(OgImage("/images/pic.jpg", 300, 0))
  {
    var attributes := map["width" := "300", "height" := "0"];
    assert Dimension(attributes, "width") == 300 by {
      DimensionIsCast(attributes, "width");
      CastOfThreeHundred();
    }
    assert Dimension(attributes, "height") == 0 by {
      assert Empty(attributes["height"]);
    }
    assert RootedPath("images/pic.jpg") == "/images/pic.jpg" by {
      assert "images/pic.jpg"[0] == 'i';
      assert "/" + "images/pic.jpg" == "/images/pic.jpg";
    }
  }
}
