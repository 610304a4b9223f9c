/** The article-body scan `#<img[^>]+src=["']([^"']+)["']#i`: the first image source of the first
    image tag, with the match PCRE finds for this pattern.

    The pattern is matched at the leftmost position where it can match. For one `<img` start,
    the greedy `[^>]+` is backtracked from its longest extent, so the LAST `src=` that lies before
    the first `>` after `<img` and that is followed by a quoted value is the one captured.
    The captured value is the whole run of non-quote characters after the opening quote, and it
    must be followed by a quote. Letters match without regard to ASCII case. */
module ImgScan {
  import opened Options

  /** ASCII lower-casing: the case folding of a caseless match outside UTF mode. */
  function Lower(c: char): char
  {
    if 'A' <= c <= 'Z' then ((c as int) + 32) as char else c
  }

  /** `word` (written in lower case) occurs at `at` in `text`, ignoring ASCII case. */
  predicate CaselessAt(text: string, at: int, word: string)
  {
    0 <= at && at + |word| <= |text| && forall i :: 0 <= i < |word| ==> Lower(text[at + i]) == word[i]
  }

  predicate IsQuote(c: char)
  {
    c == '"' || c == '\''
  }

  /** No `>` in text[a..b]. */
  predicate NoCloseBetween(text: string, a: int, b: int)
    requires 0 <= a <= b <= |text|
  {
    forall i :: a <= i < b ==> text[i] != '>'
  }

  /** `src=["']([^"']+)["']` matches at j and captures v. */
  predicate SrcAttr(text: string, j: int, v: string)
  {
    && CaselessAt(text, j, "src=")
    && j + 5 + |v| < |text|
    && IsQuote(text[j + 4])
    && |v| > 0
    && text[j + 5 .. j + 5 + |v|] == v
    && (forall i :: 0 <= i < |v| ==> !IsQuote(v[i]))
    && IsQuote(text[j + 5 + |v|])
  }

  /** The whole pattern matches with `<img` at t, `[^>]+` covering text[t + 4 .. j] and the
      group capturing v. */
  predicate ImgMatch(text: string, t: int, j: int, v: string)
  {
    && CaselessAt(text, t, "<img")
    && t + 5 <= j <= |text|
    && NoCloseBetween(text, t + 4, j)
    && SrcAttr(text, j, v)
  }

  /** The match PCRE reports: leftmost start, then the longest `[^>]+`. */
  ghost predicate FirstMatch(text: string, t: int, j: int, v: string)
  {
    && ImgMatch(text, t, j, v)
    && (forall t', j', v' :: t' < t ==> !ImgMatch(text, t', j', v'))
    && (forall j', v' :: j < j' ==> !ImgMatch(text, t, j', v'))
  }

  /** At one position the capture is determined: a quoted value has exactly one end. */
  lemma SrcAttrUnique(text: string, j: int, v: string, w: string)
    requires SrcAttr(text, j, v) && SrcAttr(text, j, w)
    ensures v == w
  {
    QuoteEndOfSrc(text, j, v);
    QuoteEndOfSrc(text, j, w);
  }

  /** A captured value ends where the run of non-quote characters after the opening quote ends. */
  lemma QuoteEndOfSrc(text: string, j: int, v: string)
    requires SrcAttr(text, j, v)
    ensures QuoteEnd(text, j + 5) == j + 5 + |v|
  {
    forall m | j + 5 <= m < j + 5 + |v|
      ensures !IsQuote(text[m])
    {
      assert text[m] == v[m - (j + 5)];
    }
    QuoteEndAt(text, j + 5, j + 5 + |v|);
  }

  /** The run of non-quote characters from i ends at the first quote e. */
  lemma {:induction false} QuoteEndAt(text: string, i: nat, e: nat)
    requires i <= e < |text| && IsQuote(text[e])
    requires forall m :: i <= m < e ==> !IsQuote(text[m])
    ensures QuoteEnd(text, i) == e
    decreases e - i
  {
    if i < e {
      QuoteEndAt(text, i + 1, e);
    }
  }

  /** The first `>` at or after i lies beyond a stretch without `>`. */
  lemma {:induction false} TagEndBeyond(text: string, i: nat, e: nat)
    requires i <= e <= |text| && NoCloseBetween(text, i, e)
    ensures e <= TagEnd(text, i)
    decreases e - i
  {
    if i < e {
      TagEndBeyond(text, i + 1, e);
    }
  }

  /** First `>` at or after i, or the end of the text. */
  function TagEnd(text: string, i: nat): (q: nat)
    requires i <= |text|
    ensures i <= q <= |text| && NoCloseBetween(text, i, q)
    ensures q < |text| ==> text[q] == '>'
    decreases |text| - i
  {
    if i == |text| || text[i] == '>' then i else TagEnd(text, i + 1)
  }

  /** End of the run of non-quote characters that starts at i. */
  function QuoteEnd(text: string, i: nat): (k: nat)
    requires i <= |text|
    ensures i <= k <= |text|
    ensures forall m :: i <= m < k ==> !IsQuote(text[m])
    ensures k < |text| ==> IsQuote(text[k])
    decreases |text| - i
  {
    if i == |text| || IsQuote(text[i]) then i else QuoteEnd(text, i + 1)
  }

  /** The capture of `src=["']([^"']+)["']` when it matches at j. */
  function SrcAt(text: string, j: nat): (r: Option<string>)
    ensures r.Some? ==> SrcAttr(text, j, r.value)
    ensures r.None? ==> forall v :: !SrcAttr(text, j, v)
  {
    if CaselessAt(text, j, "src=") && j + 4 < |text| && IsQuote(text[j + 4]) then
      var k := QuoteEnd(text, j + 5);
      if j + 5 < k < |text| then
        SrcAttrUpTo(text, j, k);
        Some(text[j + 5 .. k])
      else
        SrcAttrEnds(text, j);
        None
    else
      None
  }

  lemma SrcAttrUpTo(text: string, j: nat, k: nat)
    requires CaselessAt(text, j, "src=") && j + 4 < |text| && IsQuote(text[j + 4])
    requires k == QuoteEnd(text, j + 5) && j + 5 < k < |text|
    ensures SrcAttr(text, j, text[j + 5 .. k])
  {
    var v := text[j + 5 .. k];
    assert forall i :: 0 <= i < |v| ==> v[i] == text[j + 5 + i];
  }

  lemma SrcAttrEnds(text: string, j: nat)
    ensures forall v :: SrcAttr(text, j, v) ==> QuoteEnd(text, j + 5) == j + 5 + |v|
  {
    forall v | SrcAttr(text, j, v)
      ensures QuoteEnd(text, j + 5) == j + 5 + |v|
    {
      QuoteEndOfSrc(text, j, v);
    }
  }

  /** The greatest j in [lo, hi) at which a quoted `src=` value starts. */
  function LastSrc(text: string, lo: nat, hi: nat): (r: Option<(nat, string)>)
    requires lo <= hi
    ensures r.Some? ==> lo <= r.value.0 < hi && SrcAttr(text, r.value.0, r.value.1)
    ensures r.Some? ==> forall j, v :: r.value.0 < j < hi ==> !SrcAttr(text, j, v)
    ensures r.None? ==> forall j, v :: lo <= j < hi ==> !SrcAttr(text, j, v)
    decreases hi - lo
  {
    if lo == hi then None
    else
      match SrcAt(text, hi - 1)
      case Some(v) => Some((hi - 1, v))
      case None => LastSrc(text, lo, hi - 1)
  }

  /** The match that starts at t, if any. */
  function MatchAtTag(text: string, t: nat): (r: Option<(nat, string)>)
    ensures r.Some? ==> ImgMatch(text, t, r.value.0, r.value.1)
    ensures r.Some? ==> forall j, v :: r.value.0 < j ==> !ImgMatch(text, t, j, v)
    ensures r.None? ==> forall j, v :: !ImgMatch(text, t, j, v)
  {
    if CaselessAt(text, t, "<img") then
      var q := TagEnd(text, t + 4);
      TagSpan(text, t, q);
      if t + 5 <= q then LastSrc(text, t + 5, q) else None
    else
      None
  }

  /** Inside the tag that starts at t, `[^>]+` can end exactly at the positions before the
      first `>`, and a `src=` can only start before that `>`. */
  lemma TagSpan(text: string, t: nat, q: nat)
    requires CaselessAt(text, t, "<img") && q == TagEnd(text, t + 4)
    ensures forall j, v :: ImgMatch(text, t, j, v) ==> j < q && SrcAttr(text, j, v)
    ensures forall j, v :: t + 5 <= j < q && SrcAttr(text, j, v) ==> ImgMatch(text, t, j, v)
  {
    forall j, v | ImgMatch(text, t, j, v)
      ensures j < q
    {
      assert Lower(text[j + 0]) == "src="[0];
      assert NoCloseBetween(text, t + 4, j + 1);
      TagEndBeyond(text, t + 4, j + 1);
    }
  }

  /** The leftmost match that starts at or after t. */
  function MatchFrom(text: string, t: nat): (r: Option<(nat, nat, string)>)
    requires t <= |text|
    ensures r.Some? ==> t <= r.value.0 && ImgMatch(text, r.value.0, r.value.1, r.value.2)
    ensures r.Some? ==> forall t', j, v :: t <= t' < r.value.0 ==> !ImgMatch(text, t', j, v)
    ensures r.Some? ==> forall j, v :: r.value.1 < j ==> !ImgMatch(text, r.value.0, j, v)
    ensures r.None? ==> forall t', j, v :: t <= t' ==> !ImgMatch(text, t', j, v)
    decreases |text| - t
  {
    if t == |text| then
      None
    else
      match MatchAtTag(text, t)
      case Some((j, v)) => Some((t, j, v))
      case None => MatchFrom(text, t + 1)
  }

  /** The value the plugin takes from the article text: the capture of the match PCRE reports,
      or nothing when the pattern does not match anywhere. */
  function FirstImgSrc(text: string): (r: Option<string>)
    ensures r.Some? ==> exists t, j :: FirstMatch(text, t, j, r.value)
    ensures r.None? ==> forall t, j, v :: !ImgMatch(text, t, j, v)
  {
    match MatchFrom(text, 0)
    case Some((t, j, v)) =>
      assert FirstMatch(text, t, j, v);
      Some(v)
    case None => None
  }

  /** Whatever the scan returns is a non-empty value without quote characters that stands after
      a caseless `src=` inside a caseless `<img` tag, before that tag's first `>`. */
  lemma FirstImgSrcShape(text: string)
    requires FirstImgSrc(text).Some?
    ensures var v := FirstImgSrc(text).value;
      && |v| > 0
      && (forall i :: 0 <= i < |v| ==> v[i] != '"' && v[i] != '\'')
      && exists t, j ::
        && CaselessAt(text, t, "<img") && CaselessAt(text, j, "src=")
        && t + 5 <= j && j + 5 + |v| < |text| && text[j + 5 .. j + 5 + |v|] == v
        && forall i :: t + 4 <= i < j ==> text[i] != '>'
  {
    var v := FirstImgSrc(text).value;
    var t, j :| FirstMatch(text, t, j, v);
    assert forall i :: 0 <= i < |v| ==> !IsQuote(v[i]);
  }

  /** The scan is exactly the PCRE match: any leftmost, longest match is the one it reports. */
  lemma FirstImgSrcIsFirstMatch(text: string, t: int, j: int, v: string)
    requires FirstMatch(text, t, j, v)
    ensures FirstImgSrc(text) == Some(v)
  {
    var r := FirstImgSrc(text);
    assert r.Some?;
    var t', j' :| FirstMatch(text, t', j', r.value);
    assert t == t';
    assert j == j';
    SrcAttrUnique(text, j, v, r.value);
  }

  const SampleBody := "<img src=\"images/body.png\">"

  /** The first image source of a typical article body is found verbatim. */
  lemma SampleBodyScan()
    ensures FirstImgSrc(SampleBody) == Some("images/body.png")
  {
    var body := SampleBody;
    assert ImgMatch(body, 0, 5, "images/body.png") by {
      assert CaselessAt(body, 0, "<img");
      assert CaselessAt(body, 5, "src=");
      assert forall i :: 0 <= i < 15 ==> body[10 + i] == "images/body.png"[i];
      assert body[10..25] == "images/body.png";
    }
    assert forall j, v :: 5 < j ==> !ImgMatch(body, 0, j, v);
    FirstImgSrcIsFirstMatch(body, 0, 5, "images/body.png");
  }

  /** The greedy `[^>]+` makes the last `src=` of a tag win: a `data-src` written after `src`
      is the value taken. */
  lemma LastSrcOfTagWins()
    ensures FirstImgSrc("<img src=\"a\" data-src=\"b\">") == Some("b")
  {
    var body := "<img src=\"a\" data-src=\"b\">";
    assert CaselessAt(body, 0, "<img");
    assert CaselessAt(body, 18, "src=");
    assert body[23..24] == "b";
    assert ImgMatch(body, 0, 18, "b");
    assert forall j, v :: 18 < j ==> !ImgMatch(body, 0, j, v);
    FirstImgSrcIsFirstMatch(body, 0, 18, "b");
  }

  /** A `>` inside an attribute value before `src` ends the tag for the pattern: no match. */
  lemma CloseInsideAttributeHidesSrc()
    ensures FirstImgSrc("<img alt=\">\" src=\"a\">") == None
  {
    var body := "<img alt=\">\" src=\"a\">";
    assert body[10] == '>';
    forall t | 0 < t
      ensures !CaselessAt(body, t, "<img")
    {
      if t + 4 <= |body| {
        assert Lower(body[t + 0]) != "<img"[0];
      }
    }
    assert forall j :: 10 < j <= |body| ==> !NoCloseBetween(body, 4, j);
    forall j | 5 <= j <= 10
      ensures !CaselessAt(body, j, "src=")
    {
      assert Lower(body[j + 0]) != "src="[0];
    }
    assert forall t, j, v :: !ImgMatch(body, t, j, v);
  }
}
