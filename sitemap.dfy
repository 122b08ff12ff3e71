/**
 * The sitemap rules of the blog's build configuration: which built pages
 * reach the sitemap, and the `{url, changefreq, priority}` record that the
 * `serialize` callback makes for each of them.
 *
 * Priorities are integer tenths: 10 stands for 1.0, 9 for 0.9, 6 for 0.6
 * and 5 for 0.5.
 */
module Sitemap {
  import opened Text

  /** `siteMetadata.siteUrl` as configured; note the trailing slash. */
  const SiteUrl: string := "https://pragmaticpineapple.com/"

  const Root: string := "/"
  const TagsSegment: string := "/tags/"
  const ThankYou: string := "/thank-you/"
  const ConfirmSubscription: string := "/confirm-subscription/"
  /** The transactional pages listed in the third override. */
  const TransactionalPages: seq<string> := [ThankYou, ConfirmSubscription]
  const Daily: string := "daily"

  const DefaultPriority: nat := 10
  const RootPriority: nat := 9
  const TagPriority: nat := 6
  const TransactionalPriority: nat := 5

  // The directory whose pages the `exclude` pattern `/newsletter/*` drops.
  const NewsletterDir: string := "/newsletter/"

  datatype SitemapEntry = SitemapEntry(url: string, changefreq: string, priority: nat)

  // The page is matched by the exclusion pattern `/newsletter/*`: it lies
  // under `/newsletter/` and names something there.
  predicate Excluded(path: string)
  {
    IsPrefix(NewsletterDir, path) && |path| > |NewsletterDir|
  }

  predicate TagPage(path: string)
  {
    Includes(path, TagsSegment)
  }

  predicate TransactionalPage(path: string)
  {
    path in TransactionalPages
  }

  /**
   * The priority rule read as a precedence list, first match wins: root,
   * then tag pages, then the transactional pages, then the default.
   */
  function Priority(path: string): nat
  {
    if path == Root then RootPriority
    else if TagPage(path) then TagPriority
    else if TransactionalPage(path) then TransactionalPriority
    else DefaultPriority
  }

  /** The record the serializer produces for one page. */
  function Entry(siteUrl: string, path: string): SitemapEntry
  {
    SitemapEntry(siteUrl + path, Daily, Priority(path))
  }

  /** The root is shorter than the tag segment, so it is not a tag page. */
  lemma RootIsNotTagPage()
    ensures !TagPage(Root)
  {
    IncludesNoLonger(Root, TagsSegment);
  }

  /**
   * Neither transactional page is a tag page: neither has a 'g', the
   * fourth character of "/tags/".
   */
  lemma ThankYouIsNotTagPage()
    ensures !TagPage(ThankYou)
  {
    IncludesNeedsChar(ThankYou, TagsSegment, 3);
  }

  lemma ConfirmSubscriptionIsNotTagPage()
    ensures !TagPage(ConfirmSubscription)
  {
    IncludesNeedsChar(ConfirmSubscription, TagsSegment, 3);
  }

  /** No condition of the three overrides holds together with another. */
  lemma OverridesDisjoint(path: string)
    ensures path == Root ==> !TagPage(path) && !TransactionalPage(path)
    ensures TransactionalPage(path) ==> !TagPage(path)
  {
    if path == Root {
      RootIsNotTagPage();
    } else if path == ThankYou {
      ThankYouIsNotTagPage();
    } else if path == ConfirmSubscription {
      ConfirmSubscriptionIsNotTagPage();
    }
  }

  /**
   * One run of the `serialize` callback body: build the record with the
   * default priority, then overwrite the priority by three independent
   * `if`s, the last applicable write winning. Because the overrides are
   * disjoint this agrees with the first-match rule `Priority`.
   */
  method SerializePage(siteUrl: string, path: string) returns (e: SitemapEntry)
    ensures e.url == siteUrl + path
    ensures e.changefreq == Daily
    ensures e.priority == Priority(path)
    ensures e == Entry(siteUrl, path)
  {
    e := SitemapEntry(siteUrl + path, Daily, DefaultPriority);
    if path == Root {
      e := e.(priority := RootPriority);
    }
    if Includes(path, TagsSegment) {
      e := e.(priority := TagPriority);
    }
    if path in TransactionalPages {
      e := e.(priority := TransactionalPriority);
    }
    OverridesDisjoint(path);
  }

  /** Each priority value is produced by exactly one class of paths. */
  lemma PriorityCases(path: string)
    ensures Priority(path) == RootPriority <==> path == Root
    ensures Priority(path) == TagPriority <==> TagPage(path)
    ensures Priority(path) == TransactionalPriority <==> TransactionalPage(path)
    ensures Priority(path) == DefaultPriority <==>
              path != Root && !TagPage(path) && !TransactionalPage(path)
  {
    OverridesDisjoint(path);
  }

  /** A priority is one of 0.5, 0.6, 0.9 and 1.0, hence within [0.0, 1.0]. */
  lemma PriorityRange(path: string)
    ensures Priority(path) in {TransactionalPriority, TagPriority, RootPriority, DefaultPriority}
    ensures Priority(path) <= 10
  {
  }

  // The four sample paths and their priorities, one lemma per path: putting
  // several string literals into one proof makes the unfolding of `Includes`
  // on them too costly.

  lemma SampleRootPriority()
    ensures Priority("/") == 9
  {
  }

  lemma SampleTagPagePriority()
    ensures Priority("/tags/go/") == 6
  {
    assert IsPrefix(TagsSegment, "/tags/go/");
  }

  lemma SampleTransactionalPagePriority()
    ensures Priority("/thank-you/") == 5
  {
    ThankYouIsNotTagPage();
  }

  /** `/random-post/` has no 'g', so it is not a tag page. */
  lemma SamplePlainPagePriority()
    ensures Priority("/random-post/") == 10
  {
    IncludesNeedsChar("/random-post/", TagsSegment, 3);
  }

  /** The pages that survive the `exclude` option, in their input order. */
  function Kept(pages: seq<string>): seq<string>
  {
    if pages == [] then []
    else if Excluded(pages[0]) then Kept(pages[1..])
    else [pages[0]] + Kept(pages[1..])
  }

  /**
   * `allSitePage.edges.map(...)`: one record per page, in order. Each
   * element is `Entry`, which is exactly the record `SerializePage` returns
   * for that page (its last ensures).
   */
  function SerializeAll(siteUrl: string, pages: seq<string>): seq<SitemapEntry>
  {
    if pages == [] then [] else [Entry(siteUrl, pages[0])] + SerializeAll(siteUrl, pages[1..])
  }

  /** The sitemap of a build: the kept pages, serialized. */
  function Sitemap(siteUrl: string, pages: seq<string>): seq<SitemapEntry>
  {
    SerializeAll(siteUrl, Kept(pages))
  }

  /**
   * The serializer is a plain map: exactly one record per page, at the
   * page's own position, whose url is the raw concatenation of the site
   * url and the path, whose changefreq is `daily` and whose priority is
   * the rule's.
   */
  lemma {:induction false} SerializeAllPointwise(siteUrl: string, pages: seq<string>)
    ensures |SerializeAll(siteUrl, pages)| == |pages|
    ensures forall i :: 0 <= i < |pages| ==>
              SerializeAll(siteUrl, pages)[i].url == siteUrl + pages[i] &&
              SerializeAll(siteUrl, pages)[i].changefreq == Daily &&
              SerializeAll(siteUrl, pages)[i].priority == Priority(pages[i])
  {
    if pages != [] {
      SerializeAllPointwise(siteUrl, pages[1..]);
      forall i | 0 < i < |pages|
        ensures SerializeAll(siteUrl, pages)[i] == SerializeAll(siteUrl, pages[1..])[i - 1]
      {
      }
    }
  }

  /** A page is kept exactly when it occurs in the input and is not excluded. */
  lemma {:induction false} KeptMembers(pages: seq<string>)
    ensures forall p :: p in Kept(pages) <==> p in pages && !Excluded(p)
  {
    if pages != [] {
      KeptMembers(pages[1..]);
      assert pages == [pages[0]] + pages[1..];
    }
  }

  /** The exclusion filter keeps input order: it distributes over concatenation. */
  lemma {:induction false} KeptAppend(a: seq<string>, b: seq<string>)
    ensures Kept(a + b) == Kept(a) + Kept(b)
  {
    if a == [] {
      assert a + b == b;
    } else {
      KeptAppend(a[1..], b);
      assert (a + b)[1..] == a[1..] + b;
    }
  }

  /** When no page is excluded, every page is kept, in place. */
  lemma {:induction false} KeptAll(pages: seq<string>)
    requires forall i :: 0 <= i < |pages| ==> !Excluded(pages[i])
    ensures Kept(pages) == pages
  {
    if pages != [] {
      KeptAll(pages[1..]);
    }
  }

  /** No page under `/newsletter/` has a record in the sitemap. */
  lemma ExcludedPageHasNoEntry(siteUrl: string, pages: seq<string>, p: string)
    requires Excluded(p)
    ensures forall e :: e in Sitemap(siteUrl, pages) ==> e.url != siteUrl + p
  {
    var kept := Kept(pages);
    KeptMembers(pages);
    SerializeAllPointwise(siteUrl, kept);
    forall e | e in Sitemap(siteUrl, pages) ensures e.url != siteUrl + p {
      var i :| 0 <= i < |kept| && Sitemap(siteUrl, pages)[i] == e;
      assert kept[i] in kept;
      assert (siteUrl + p)[|siteUrl|..] == p;
      assert (siteUrl + kept[i])[|siteUrl|..] == kept[i];
    }
  }

  /** Every record in the sitemap has priority 0.5, 0.6, 0.9 or 1.0 and changefreq `daily`. */
  lemma SitemapEntriesWellFormed(siteUrl: string, pages: seq<string>)
    ensures forall e :: e in Sitemap(siteUrl, pages) ==>
              e.changefreq == Daily &&
              e.priority in {TransactionalPriority, TagPriority, RootPriority, DefaultPriority}
  {
    SerializeAllPointwise(siteUrl, Kept(pages));
  }

  /**
   * The concatenation is not normalised: when the configured site url
   * (ending in `/`) is passed through unchanged and a page path starts with
   * `/`, the url keeps both slashes right after the host.
   */
  lemma DoubleSlashAfterHost(path: string)
    requires |path| > 0 && path[0] == '/'
    ensures Entry(SiteUrl, path).url[|SiteUrl| - 1..|SiteUrl| + 1] == "//"
  {
    var u := Entry(SiteUrl, path).url;
    assert u[|SiteUrl| - 1] == SiteUrl[|SiteUrl| - 1] == '/';
    assert u[|SiteUrl|] == path[0];
  }
}
