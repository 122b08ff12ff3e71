# Sitemap and RSS feed rules of the Pragmatic Pineapple blog

This project models the two build-time rules in the blog's Gatsby configuration
(`gatsby-config.js`) that carry logic of their own, and proves what they
promise.

- **Sitemap** (module `Sitemap`, `sitemap.dfy`). The `gatsby-plugin-sitemap`
  options drop every page that matches the `exclude` pattern for the
  `/newsletter/` directory. The `serialize` callback then maps each remaining
  page path to a record `{url, changefreq, priority}`. The url is the raw
  concatenation of `siteMetadata.siteUrl` and the path. The changefreq is
  always `daily`. The priority starts at 1.0 and three independent `if`s then
  overwrite it: 0.9 for `/`, 0.6 for a path containing `/tags/`, and 0.5 for
  exactly `/thank-you/` or `/confirm-subscription/`. Priorities are integer
  tenths (10, 9, 6, 5). `SerializePage` performs the default-then-overwrite
  sequence step by step, the way the callback does. Its contract ties the
  result to `Priority`, a first-match-wins reading of the rule. The two
  readings agree because the three conditions are pairwise disjoint
  (`OverridesDisjoint`). The outer `edges.map` is pure, so it is the function
  `SerializeAll`, composed with the exclusion filter `Kept` into `Sitemap`.
- **Feed selection** (module `Feed`, `feed.dfy`). The `gatsby-plugin-feed`
  query selects markdown nodes with `newsletter: { ne: true }` and
  `published: { eq: true }`. It sorts them by `frontmatter.date` descending
  and keeps at most 1000. The model is
  `FeedNodes(nodes) = Take(SortByDateDesc(Eligibles(nodes)), 1000)`. The
  `published` and `newsletter` flags are `Option<bool>`, because a file may omit
  them. The query does not fix the order of nodes with equal dates, so no
  lemma depends on the order `SortByDateDesc` picks for them.
- **String helpers** (module `Text`, `strings.dfy`). `Includes` models
  JavaScript's `String.prototype.includes`, which the tag rule uses. It is
  proved equal to an index-based definition of "occurs in".

Three points where a natural reading of these rules differs from what the
configuration says. The model follows the configuration:

- A precedence list would let the first matching rule win. The code writes
  three independent `if`s, so the last matching write wins. Both readings are
  modelled, and `SerializePage` proves that they agree.
- One might expect the feed to take only blog posts. The query has no filter
  on the source collection: a markdown file from the newsletter directory
  passes unless it sets `newsletter: true` (`EligibleIgnoresSource`).
- One might expect an absent `published` flag to mean "published". The
  query's `eq: true` excludes a node whose `published` is absent
  (`UnpublishedExcluded`).

The callback assigns to `sitemapObject` without declaring it, so in
non-strict JavaScript this is a global variable. The `map` callback runs
synchronously and returns the object at once, so this does not change the
output. The model uses a local value.

## Model

| member | source | states |
|---|---|---|
| `Sitemap.SerializePage` | gatsby-config.js:21-34 | the default-then-overwrite sequence yields url `siteUrl + path` with nothing normalised, changefreq `daily`, and the same priority as the first-match precedence rule; so its result is exactly the `Entry` that the sitemap's `map` uses for that page |
| `Sitemap.OverridesDisjoint` | gatsby-config.js:27-32 | the root test, the `/tags/` test and the transactional-page test never hold together, so the order of the three `if`s cannot matter |
| `Sitemap.RootIsNotTagPage` | gatsby-config.js:27-29 | `/` does not contain `/tags/` |
| `Sitemap.ThankYouIsNotTagPage` | gatsby-config.js:29-31 | `/thank-you/` does not contain `/tags/` |
| `Sitemap.ConfirmSubscriptionIsNotTagPage` | gatsby-config.js:29-31 | `/confirm-subscription/` does not contain `/tags/` |
| `Sitemap.PriorityCases` | gatsby-config.js:24-32 | priority is 0.9 iff the path is `/`, 0.6 iff it contains `/tags/`, 0.5 iff it is one of the two transactional pages, and 1.0 iff none of these holds |
| `Sitemap.PriorityRange` | gatsby-config.js:24-32 | every priority is one of 0.5, 0.6, 0.9, 1.0, so it lies within [0.0, 1.0] |
| `Sitemap.SampleRootPriority` | gatsby-config.js:27 | `/` gets 0.9 |
| `Sitemap.SampleTagPagePriority` | gatsby-config.js:29 | `/tags/go/` gets 0.6 |
| `Sitemap.SampleTransactionalPagePriority` | gatsby-config.js:31-32 | `/thank-you/` gets 0.5 |
| `Sitemap.SamplePlainPagePriority` | gatsby-config.js:24 | `/random-post/` keeps the default 1.0 |
| `Sitemap.SerializeAllPointwise` | gatsby-config.js:19-25 | the `map` yields exactly one record per page, and the record at each position belongs to the page at that position: its url is the site url followed by that path, its changefreq is `daily` and its priority is the rule's |
| `Sitemap.KeptMembers` | gatsby-config.js:36 | a page survives the exclusion iff it is among the built pages and is not matched by the `/newsletter/` pattern |
| `Sitemap.KeptAppend` | gatsby-config.js:36 | the exclusion keeps the input order: filtering a concatenation is the concatenation of the filtered parts |
| `Sitemap.KeptAll` | gatsby-config.js:36 | when no page is under `/newsletter/`, every page is kept in place, so there is one sitemap record per built page |
| `Sitemap.ExcludedPageHasNoEntry` | gatsby-config.js:19-36 | no record of the sitemap has the url of a page matched by the `/newsletter/` pattern |
| `Sitemap.SitemapEntriesWellFormed` | gatsby-config.js:20-32 | every sitemap record has changefreq `daily` and a priority among 0.5, 0.6, 0.9, 1.0 |
| `Sitemap.DoubleSlashAfterHost` | gatsby-config.js:22 | when the configured `siteUrl` (line 10, ending in `/`) is passed through unchanged and the page path starts with `/`, the concatenation keeps both slashes right after the host |
| `Text.IncludesIffOccurs` | gatsby-config.js:29 | the substring test used for `/tags/` holds iff the segment occurs at some index of the path |
| `Text.IncludesNoLonger` | gatsby-config.js:29 | a path never contains a segment longer than itself |
| `Text.IncludesNeedsChar` | gatsby-config.js:29 | a path lacking some character of the segment does not contain it |
| `Feed.Insert` | gatsby-config.js:112-115 | inserting a node into a newest-first list keeps it newest-first and adds exactly that node |
| `Feed.SortByDateDesc` | gatsby-config.js:112-115 | the `sort` yields a permutation of its input that is non-increasing by `frontmatter.date` |
| `Feed.Take` | gatsby-config.js:111 | the `limit` keeps a prefix of at most the limit's length, and all of the input when it is shorter |
| `Feed.EligiblesMembers` | gatsby-config.js:116-120 | a node passes the filter iff it is in the input with `newsletter` not true and `published` true |
| `Feed.EligiblesCount` | gatsby-config.js:116-120 | the filter keeps every eligible node exactly as often as it occurs and no other node |
| `Feed.EligiblesAppend` | gatsby-config.js:116-120 | the filter keeps input order: filtering a concatenation is the concatenation of the filtered parts |
| `Feed.FeedOnlyEligible` | gatsby-config.js:116-120 | every feed node has `published` present and true, and `newsletter` absent or false |
| `Feed.UnpublishedExcluded` | gatsby-config.js:119 | a node whose `published` is absent or false is not in the feed |
| `Feed.EligibleIgnoresSource` | gatsby-config.js:116-121 | eligibility does not depend on the source directory, so a newsletter file that leaves `newsletter` unset passes |
| `Feed.FeedSorted` | gatsby-config.js:112-115 | the feed is non-increasing by `frontmatter.date` |
| `Feed.FeedLength` | gatsby-config.js:111 | the feed holds min(1000, number of eligible nodes) nodes, so never more than 1000 |
| `Feed.FeedFromEligible` | gatsby-config.js:110-121 | the feed takes each eligible node at most as often as it occurs among the eligible nodes, and takes nothing else |
| `Feed.FeedComplete` | gatsby-config.js:111-121 | with at most 1000 eligible nodes, the feed holds every one of them |
| `Feed.FeedKeepsNewest` | gatsby-config.js:110-121 | every eligible node left out by the limit is no newer than any node in the feed |

## Left out

- The React templates and components (`src/templates/blog-post.js`, `src/templates/newsletter.js`, `src/components/layout.js`, `gatsby-browser.js`) are presentation only. This includes the "minute"/"minutes" wording, the `description || excerpt` fallback, the previous/next links and the view-counter key.
- `src/components/copy-button.tsx` is browser clipboard access with a timer. It is asynchronous UI state.
- The markdown-to-HTML plugin chain (gatsby-config.js:61-88) is library code not present here: images, iframes, heading anchors, Prism, copying linked files and smartypants. The same goes for `excerpt`, `html`, `timeToRead` and `kebabCase`. The model carries `excerpt` and `html` as opaque strings.
- `Sitemap.Excluded`: the plugin's glob matching of `/newsletter/*` is not visible here. The model reads the pattern as "starts with `/newsletter/` and has at least one more character". It does not model how minimatch treats `/` inside the wildcard or trailing slashes.
- Sitemap.DoubleSlashAfterHost: the model assumes that `serialize` receives the configured `siteUrl` unchanged, and that the only pages withheld from it are those matched by the configured exclusion. What the sitemap plugin does before calling `serialize` is not part of this model. It may strip the trailing slash from `siteUrl`, or withhold default pages such as the 404 pages. If it does either, the real sitemap differs from the model there.
- The XML serialisation of the sitemap and of the RSS document, the plugin's absolute-link construction for feed items, and date formatting are left out. So is the feed's output path `rss.xml`.
- `Feed.SortByDateDesc`: the query does not specify the order of nodes with equal dates. The model fixes one order but states only sortedness and permutation. Dates are integers ordered like calendar dates. Nodes without a date are not modelled.
- Sitemap priorities are integer tenths instead of JavaScript floating-point numbers.
- The site metadata other than `siteUrl`, and the analytics, tag manager, manifest, typography and filesystem-source plugins, are configuration or I/O with no logic to model.
