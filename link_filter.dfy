/** The link discovery of `get_help_articles`, over the `href` values of the listing
    page's anchors (an anchor without `href` contributes the empty string): keep the
    help-article links, make relative ones absolute, drop duplicates. */
module LinkFilter {
  import opened Strings

  /** The site origin prefixed to relative links. */
  const BaseUrl: string := "https://www.notion.so"

  /** The path marker every help-article link contains. */
  const HelpMarker: string := "/help/"

  /** The section excluded from the crawl, matched case-insensitively. */
  const ExcludedSection: string := "academy"

  /** The prefix that marks a link as already absolute. */
  const Scheme: string := "http"

  /** An href is a help-article link when it contains the help marker and its
      lower-cased form does not mention the excluded section. */
  predicate IsArticleHref(href: string)
  {
    Contains(href, HelpMarker) && !Contains(Lower(href), ExcludedSection)
  }

  /** The absolute form of an accepted href: kept as it is when it starts with the
      scheme, prefixed with the origin otherwise. */
  function Absolute(baseUrl: string, href: string): string
  {
    if StartsWith(href, Scheme) then href else baseUrl + href
  }

  /** The list the loop builds before duplicates are dropped: the absolute form of
      every accepted href, in order. */
  function ArticleLinks(baseUrl: string, hrefs: seq<string>): seq<string>
  {
    if |hrefs| == 0 then []
    else
      var links := ArticleLinks(baseUrl, hrefs[..|hrefs| - 1]);
      var href := hrefs[|hrefs| - 1];
      if IsArticleHref(href) then links + [Absolute(baseUrl, href)] else links
  }

  /** A URL is among the collected links exactly when some accepted href normalises
      to it. */
  lemma {:induction false} ArticleLinksMembership(baseUrl: string, hrefs: seq<string>, url: string)
    ensures url in ArticleLinks(baseUrl, hrefs) <==>
      exists i :: 0 <= i < |hrefs| && IsArticleHref(hrefs[i]) && Absolute(baseUrl, hrefs[i]) == url
  {
    if |hrefs| > 0 {
      var prefix := hrefs[..|hrefs| - 1];
      ArticleLinksMembership(baseUrl, prefix, url);
      if exists i :: 0 <= i < |prefix| && IsArticleHref(prefix[i]) && Absolute(baseUrl, prefix[i]) == url {
        var i :| 0 <= i < |prefix| && IsArticleHref(prefix[i]) && Absolute(baseUrl, prefix[i]) == url;
        assert hrefs[i] == prefix[i];
      }
      if exists i :: 0 <= i < |hrefs| && IsArticleHref(hrefs[i]) && Absolute(baseUrl, hrefs[i]) == url {
        var i :| 0 <= i < |hrefs| && IsArticleHref(hrefs[i]) && Absolute(baseUrl, hrefs[i]) == url;
        if i < |prefix| {
          assert prefix[i] == hrefs[i];
        }
      }
    }
  }

  /** No value occurs twice. */
  predicate NoDuplicates<T(==)>(xs: seq<T>)
  {
    forall i, j :: 0 <= i < j < |xs| ==> xs[i] != xs[j]
  }

  /** `list(set(xs))`: the same values, each once. The order of a Python set is not
      specified, so only the elements are promised. */
  method Deduplicate<T(==)>(xs: seq<T>) returns (ys: seq<T>)
    ensures NoDuplicates(ys)
    ensures forall x :: x in ys <==> x in xs
  {
    ys := [];
    for i := 0 to |xs|
      invariant NoDuplicates(ys)
      invariant forall x :: x in ys <==> x in xs[..i]
    {
      assert xs[..i + 1] == xs[..i] + [xs[i]];
      if xs[i] !in ys {
        ys := ys + [xs[i]];
      }
    }
    assert xs[..|xs|] == xs;
  }

  /** `get_help_articles`, on the hrefs of the listing page: the distinct absolute
      forms of the accepted hrefs. */
  method GetHelpArticles(hrefs: seq<string>, baseUrl: string) returns (articleLinks: seq<string>)
    ensures NoDuplicates(articleLinks)
    ensures forall url :: url in articleLinks <==> url in ArticleLinks(baseUrl, hrefs)
    ensures forall url :: url in articleLinks <==>
      exists i :: 0 <= i < |hrefs| && IsArticleHref(hrefs[i]) && Absolute(baseUrl, hrefs[i]) == url
    ensures forall url :: url in articleLinks ==> Contains(url, HelpMarker)
    ensures ExcludedSection[0] !in Lower(baseUrl) ==>
      forall url :: url in articleLinks ==> !Contains(Lower(url), ExcludedSection)
  {
    articleLinks := [];
    for i := 0 to |hrefs|
      invariant articleLinks == ArticleLinks(baseUrl, hrefs[..i])
    {
      var href := hrefs[i];
      assert hrefs[..i + 1][..i] == hrefs[..i];
      if Contains(href, HelpMarker) && !Contains(Lower(href), ExcludedSection) {
        if StartsWith(href, Scheme) {
          articleLinks := articleLinks + [href];
        } else {
          articleLinks := articleLinks + [baseUrl + href];
        }
      }
    }
    assert hrefs[..|hrefs|] == hrefs;
    articleLinks := Deduplicate(articleLinks);
    forall url | url in articleLinks
      ensures Contains(url, HelpMarker)
    {
      ArticleLinksMembership(baseUrl, hrefs, url);
      var i :| 0 <= i < |hrefs| && IsArticleHref(hrefs[i]) && Absolute(baseUrl, hrefs[i]) == url;
      if !StartsWith(hrefs[i], Scheme) {
        ContainsAfterPrefix(baseUrl, hrefs[i], HelpMarker);
      }
    }
    if ExcludedSection[0] !in Lower(baseUrl) {
      forall url | url in articleLinks
        ensures !Contains(Lower(url), ExcludedSection)
      {
        ArticleLinksAvoidExcluded(baseUrl, hrefs, url);
      }
    }
    forall url
      ensures url in articleLinks <==>
        exists i :: 0 <= i < |hrefs| && IsArticleHref(hrefs[i]) && Absolute(baseUrl, hrefs[i]) == url
    {
      ArticleLinksMembership(baseUrl, hrefs, url);
    }
  }

  /** `sub` cannot occur in `s` when one of its characters is missing from `s`. */
  lemma MissingCharNotContained(s: string, sub: string, k: nat)
    requires k < |sub| && sub[k] !in s
    ensures !Contains(s, sub)
  {
    ContainsAt(s, sub);
    forall i | 0 <= i <= |s| - |sub|
      ensures !OccursAt(s, sub, i)
    {
      assert s[i..i + |sub|][k] == s[i + k];
    }
  }

  /** Lower-casing works character by character, so it distributes over concatenation. */
  lemma LowerAppend(a: string, b: string)
    ensures Lower(a + b) == Lower(a) + Lower(b)
  {
    assert forall i :: 0 <= i < |a| ==> (a + b)[i] == a[i];
    assert forall i :: |a| <= i < |a| + |b| ==> (a + b)[i] == b[i - |a|];
  }

  /** Putting in front of `s` a prefix that lacks the first character of `sub` cannot
      create an occurrence of `sub`: one starting inside the prefix would start with a
      character of the prefix. */
  lemma NotContainedAfterPrefix(prefix: string, s: string, sub: string)
    requires sub != [] && sub[0] !in prefix && !Contains(s, sub)
    ensures !Contains(prefix + s, sub)
  {
    ContainsAt(s, sub);
    ContainsAt(prefix + s, sub);
    forall i | 0 <= i <= |prefix + s| - |sub|
      ensures !OccursAt(prefix + s, sub, i)
    {
      var window := (prefix + s)[i..i + |sub|];
      if i < |prefix| {
        assert window[0] == prefix[i] && prefix[i] in prefix;
      } else {
        var j := i - |prefix|;
        forall k | 0 <= k < |sub|
          ensures window[k] == s[j..j + |sub|][k]
        {
        }
        assert window == s[j..j + |sub|];
        assert !OccursAt(s, sub, j);
      }
    }
  }

  /** When the origin has no `a` once lower-cased, no collected link mentions the
      excluded section: a kept absolute href was tested itself, and a prefixed one can
      only have an occurrence inside the href. */
  lemma ArticleLinksAvoidExcluded(baseUrl: string, hrefs: seq<string>, url: string)
    requires ExcludedSection[0] !in Lower(baseUrl)
    requires url in ArticleLinks(baseUrl, hrefs)
    ensures !Contains(Lower(url), ExcludedSection)
  {
    ArticleLinksMembership(baseUrl, hrefs, url);
    var i :| 0 <= i < |hrefs| && IsArticleHref(hrefs[i]) && Absolute(baseUrl, hrefs[i]) == url;
    if !StartsWith(hrefs[i], Scheme) {
      LowerAppend(baseUrl, hrefs[i]);
      NotContainedAfterPrefix(Lower(baseUrl), Lower(hrefs[i]), ExcludedSection);
    }
  }

  /** The site's own origin has no `a`, so the guarantee above holds for it. */
  lemma BaseUrlAvoidsExcluded()
    ensures ExcludedSection[0] !in Lower(BaseUrl)
  {
    assert ExcludedSection[0] == 'a';
    assert 'a' !in Lower(BaseUrl);
  }

  /** A relative article link is accepted and prefixed with the origin. */
  lemma RelativeArticleAccepted()
    ensures IsArticleHref("/help/foo") && Absolute(BaseUrl, "/help/foo") == "https://www.notion.so/help/foo"
  {
    var href := "/help/foo";
    assert StartsWith(href, HelpMarker);
    assert 'c' !in Lower(href);
    MissingCharNotContained(Lower(href), ExcludedSection, 1);
    assert href[0] == '/' && Scheme[0] == 'h';
    assert !StartsWith(href, Scheme);
  }

  /** A help link into the academy section is rejected. */
  lemma AcademyRejected()
    ensures !IsArticleHref("/help/academy/bar")
  {
    var lowered := Lower("/help/academy/bar");
    assert lowered[6..13] == ExcludedSection;
    assert OccursAt(lowered, ExcludedSection, 6);
    ContainsAt(lowered, ExcludedSection);
  }

  lemma AbsoluteArticleHasMarker()
    ensures Contains("https://other.site/help/baz", HelpMarker)
  {
    var href := "https://other.site/help/baz";
    assert href[18..24] == HelpMarker;
    assert OccursAt(href, HelpMarker, 18);
    ContainsAt(href, HelpMarker);
  }

  lemma AbsoluteArticleNotExcluded()
    ensures !Contains(Lower("https://other.site/help/baz"), ExcludedSection)
  {
    var href := "https://other.site/help/baz";
    assert 'c' !in Lower(href);
    MissingCharNotContained(Lower(href), ExcludedSection, 1);
  }

  /** An absolute article link on another host is accepted and kept as it is. */
  lemma AbsoluteArticleAccepted()
    ensures IsArticleHref("https://other.site/help/baz")
    ensures Absolute(BaseUrl, "https://other.site/help/baz") == "https://other.site/help/baz"
  {
    AbsoluteArticleHasMarker();
    AbsoluteArticleNotExcluded();
    AbsoluteArticleHasScheme();
  }

  lemma AbsoluteArticleHasScheme()
    ensures StartsWith("https://other.site/help/baz", Scheme)
  {
    var href := "https://other.site/help/baz";
    assert href[..4] == Scheme;
  }

  /** A page outside the help section is rejected. */
  lemma OtherPageRejected()
    ensures !IsArticleHref("/other/page")
  {
    MissingCharNotContained("/other/page", HelpMarker, 3);
  }

  /** Appending an href appends its absolute form exactly when it is accepted. */
  lemma ArticleLinksSnoc(baseUrl: string, hrefs: seq<string>, href: string)
    ensures ArticleLinks(baseUrl, hrefs + [href])
      == if IsArticleHref(href) then ArticleLinks(baseUrl, hrefs) + [Absolute(baseUrl, href)] else ArticleLinks(baseUrl, hrefs)
  {
    assert (hrefs + [href])[..|hrefs|] == hrefs;
  }

  /** Four hrefs of the listing page: a relative article, an academy page, an absolute
      article on another host, and a page outside the help section. */
  lemma ListingExample()
    ensures ArticleLinks(BaseUrl, ["/help/foo", "/help/academy/bar", "https://other.site/help/baz", "/other/page"])
      == ["https://www.notion.so/help/foo", "https://other.site/help/baz"]
  {
    RelativeArticleAccepted();
    AcademyRejected();
    AbsoluteArticleAccepted();
    OtherPageRejected();
    ArticleLinksOfFour(BaseUrl, "/help/foo", "/help/academy/bar", "https://other.site/help/baz", "/other/page");
  }

  /** Four hrefs of which the first and third are accepted. */
  lemma ArticleLinksOfFour(baseUrl: string, h0: string, h1: string, h2: string, h3: string)
    requires IsArticleHref(h0) && !IsArticleHref(h1) && IsArticleHref(h2) && !IsArticleHref(h3)
    ensures ArticleLinks(baseUrl, [h0, h1, h2, h3]) == [Absolute(baseUrl, h0), Absolute(baseUrl, h2)]
  {
    ArticleLinksSnoc(baseUrl, [], h0);
    ArticleLinksSnoc(baseUrl, [h0], h1);
    ArticleLinksSnoc(baseUrl, [h0, h1], h2);
    ArticleLinksSnoc(baseUrl, [h0, h1, h2], h3);
    assert [] + [h0] == [h0] && [h0] + [h1] == [h0, h1];
    assert [h0, h1] + [h2] == [h0, h1, h2] && [h0, h1, h2] + [h3] == [h0, h1, h2, h3];
  }
}
