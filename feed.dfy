/**
 * The record selection of the blog's RSS feed: the `allMarkdownRemark`
 * query with its `filter`, `sort` and `limit` arguments, read as
 * `take(1000, sortByDateDescending(filter(eligible, nodes)))`.
 *
 * Dates are modelled as integers ordered like the calendar dates they
 * stand for.
 */
module Feed {

  datatype Option<T> = None | Some(value: T)

  /** The filesystem source a markdown file was loaded from. */
  datatype Source = Blog | Newsletter | Assets

  /**
   * The frontmatter fields the query reads. `published` and `newsletter`
   * may be absent from a file, hence the options.
   */
  datatype Frontmatter = Frontmatter(
    title: string,
    date: int,
    published: Option<bool>,
    newsletter: Option<bool>)

  /** One markdown node with the fields the feed query selects. */
  datatype MarkdownNode = MarkdownNode(
    source: Source,
    frontmatter: Frontmatter,
    slug: string,
    excerpt: string,
    html: string)

  /** The `limit` argument of the query. */
  const FeedLimit: nat := 1000

  /**
   * The query's `filter`: `newsletter: { ne: true }` and
   * `published: { eq: true }`. The source directory plays no part.
   */
  predicate Eligible(n: MarkdownNode)
  {
    n.frontmatter.newsletter != Some(true) && n.frontmatter.published == Some(true)
  }

  /** The nodes that pass the filter, in their input order. */
  function Eligibles(nodes: seq<MarkdownNode>): seq<MarkdownNode>
  {
    if nodes == [] then []
    else if Eligible(nodes[0]) then [nodes[0]] + Eligibles(nodes[1..])
    else Eligibles(nodes[1..])
  }

  /** Non-increasing by `frontmatter.date`. */
  predicate SortedByDateDesc(s: seq<MarkdownNode>)
  {
    forall i, j :: 0 <= i < j < |s| ==> s[i].frontmatter.date >= s[j].frontmatter.date
  }

  /** Places `n` into a list that is already newest-first. */
  function Insert(n: MarkdownNode, s: seq<MarkdownNode>): (r: seq<MarkdownNode>)
    requires SortedByDateDesc(s)
    ensures SortedByDateDesc(r)
    ensures multiset(r) == multiset(s) + multiset{n}
    ensures r[0] == n || (s != [] && r[0] == s[0])
  {
    if s == [] || n.frontmatter.date >= s[0].frontmatter.date then [n] + s
    else
      var rest := Insert(n, s[1..]);
      assert s == [s[0]] + s[1..];
      assert rest[0].frontmatter.date <= s[0].frontmatter.date;
      [s[0]] + rest
  }

  /**
   * The query's `sort: { order: DESC, fields: [frontmatter___date] }`. The
   * query fixes no order among equal dates, and nothing below relies on the
   * one this definition happens to pick.
   */
  function SortByDateDesc(s: seq<MarkdownNode>): (r: seq<MarkdownNode>)
    ensures SortedByDateDesc(r)
    ensures multiset(r) == multiset(s)
  {
    if s == [] then []
    else
      assert s == [s[0]] + s[1..];
      Insert(s[0], SortByDateDesc(s[1..]))
  }

  /** The first `k` elements, or all of them when there are fewer. */
  function Take(s: seq<MarkdownNode>, k: nat): (r: seq<MarkdownNode>)
    ensures |r| <= k && |r| <= |s| && r == s[..|r|]
    ensures |r| == k || r == s
  {
    if |s| <= k then s else s[..k]
  }

  /** The nodes the feed is built from. */
  function FeedNodes(nodes: seq<MarkdownNode>): seq<MarkdownNode>
  {
    Take(SortByDateDesc(Eligibles(nodes)), FeedLimit)
  }

  function Min(a: nat, b: nat): nat
  {
    if a <= b then a else b
  }

  /** A node passes the filter exactly when it occurs in the input and is eligible. */
  lemma {:induction false} EligiblesMembers(nodes: seq<MarkdownNode>)
    ensures forall n :: n in Eligibles(nodes) <==> n in nodes && Eligible(n)
  {
    if nodes != [] {
      EligiblesMembers(nodes[1..]);
      assert nodes == [nodes[0]] + nodes[1..];
    }
  }

  /**
   * The filter keeps every eligible node as often as it occurs and drops
   * every other one.
   */
  lemma {:induction false} EligiblesCount(nodes: seq<MarkdownNode>, n: MarkdownNode)
    ensures multiset(Eligibles(nodes))[n] == if Eligible(n) then multiset(nodes)[n] else 0
  {
    if nodes != [] {
      EligiblesCount(nodes[1..], n);
      assert nodes == [nodes[0]] + nodes[1..];
    }
  }

  /** The filter keeps input order: it distributes over concatenation. */
  lemma {:induction false} EligiblesAppend(a: seq<MarkdownNode>, b: seq<MarkdownNode>)
    ensures Eligibles(a + b) == Eligibles(a) + Eligibles(b)
  {
    if a == [] {
      assert a + b == b;
    } else {
      EligiblesAppend(a[1..], b);
      assert (a + b)[1..] == a[1..] + b;
    }
  }

  /**
   * Every node in the feed is published (`published` is present and true)
   * and is not a newsletter (`newsletter` is absent or false).
   */
  lemma FeedOnlyEligible(nodes: seq<MarkdownNode>)
    ensures forall n :: n in FeedNodes(nodes) ==>
              n.frontmatter.published == Some(true) &&
              (n.frontmatter.newsletter == None || n.frontmatter.newsletter == Some(false))
  {
    var e := Eligibles(nodes);
    var s := SortByDateDesc(e);
    EligiblesMembers(nodes);
    forall n | n in FeedNodes(nodes)
      ensures n.frontmatter.published == Some(true)
      ensures n.frontmatter.newsletter == None || n.frontmatter.newsletter == Some(false)
    {
      assert n in s;
      assert n in multiset(s);
      assert n in e;
      assert Eligible(n);
      match n.frontmatter.newsletter
      case None =>
      case Some(b) => assert !b;
    }
  }

  /** A node whose `published` field is absent never reaches the feed. */
  lemma UnpublishedExcluded(nodes: seq<MarkdownNode>, n: MarkdownNode)
    requires n.frontmatter.published == None || n.frontmatter.published == Some(false)
    ensures n !in FeedNodes(nodes)
  {
    FeedOnlyEligible(nodes);
  }

  /** Eligibility ignores the source directory: a newsletter file with `newsletter` unset passes. */
  lemma EligibleIgnoresSource(n: MarkdownNode, src: Source)
    ensures Eligible(n.(source := src)) == Eligible(n)
    ensures n.frontmatter.published == Some(true) && n.frontmatter.newsletter == None ==>
              Eligible(n.(source := Newsletter))
  {
  }

  /** The feed is newest first. */
  lemma FeedSorted(nodes: seq<MarkdownNode>)
    ensures SortedByDateDesc(FeedNodes(nodes))
  {
  }

  /** The feed holds 1000 nodes, or every eligible node when there are fewer. */
  lemma FeedLength(nodes: seq<MarkdownNode>)
    ensures |FeedNodes(nodes)| == Min(FeedLimit, |Eligibles(nodes)|)
    ensures |FeedNodes(nodes)| <= FeedLimit
  {
    var s := SortByDateDesc(Eligibles(nodes));
    assert |multiset(s)| == |multiset(Eligibles(nodes))|;
  }

  /** The feed takes each eligible node at most as often as it occurs. */
  lemma FeedFromEligible(nodes: seq<MarkdownNode>)
    ensures multiset(FeedNodes(nodes)) <= multiset(Eligibles(nodes))
  {
    var s := SortByDateDesc(Eligibles(nodes));
    var f := FeedNodes(nodes);
    assert s == f + s[|f|..];
  }

  /** With at most 1000 eligible nodes, the feed holds every one of them. */
  lemma FeedComplete(nodes: seq<MarkdownNode>)
    requires |Eligibles(nodes)| <= FeedLimit
    ensures multiset(FeedNodes(nodes)) == multiset(Eligibles(nodes))
  {
    var s := SortByDateDesc(Eligibles(nodes));
    assert |multiset(s)| == |multiset(Eligibles(nodes))|;
  }

  /**
   * The feed holds the newest eligible nodes: every eligible node left out
   * is no newer than any node kept.
   */
  lemma FeedKeepsNewest(nodes: seq<MarkdownNode>)
    ensures forall x, y ::
              x in multiset(Eligibles(nodes)) - multiset(FeedNodes(nodes)) && y in FeedNodes(nodes) ==>
                x.frontmatter.date <= y.frontmatter.date
  {
    var s := SortByDateDesc(Eligibles(nodes));
    var f := FeedNodes(nodes);
    var rest := s[|f|..];
    assert s == f + rest;
    assert multiset(Eligibles(nodes)) - multiset(f) == multiset(rest);
    forall x: MarkdownNode, y: MarkdownNode | x in multiset(rest) && y in f
      ensures x.frontmatter.date <= y.frontmatter.date
    {
      assert x in rest;
      var i :| 0 <= i < |rest| && rest[i] == x;
      var j :| 0 <= j < |f| && f[j] == y;
      assert s[|f| + i] == x && s[j] == y;
    }
  }
}
