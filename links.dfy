/**
 * The link collector: walking one category's paginated listing until the
 * first page without product anchors, and merging the categories' links
 * into one list without duplicates.
 */
module Links {

  type Href = string

  /**
   * One category's listing as the network presents it: page n's matching
   * product anchors' hrefs, in document order.
   */
  type Listing = nat -> seq<Href>

  /** Pagination ends only if some page from 1 on has no product anchors. */
  ghost predicate HasEmptyPage(page: Listing) {
    exists k: nat :: 1 <= k && |page(k)| == 0
  }

  /** Pages 1..n all hold products and page n + 1 holds none. */
  ghost predicate EndsAfter(page: Listing, n: nat) {
    && (forall j: nat :: 1 <= j <= n ==> |page(j)| > 0)
    && |page(n + 1)| == 0
  }

  /** The hrefs of pages 1..n, in page order and anchor order. */
  function PagesLinks(page: Listing, n: nat): seq<Href> {
    if n == 0 then [] else PagesLinks(page, n - 1) + page(n)
  }

  /** The first empty page at or after page i, given an empty page k. */
  ghost function FirstEmptyFrom(page: Listing, i: nat, k: nat): (f: nat)
    requires 1 <= i <= k && |page(k)| == 0
    requires forall j: nat :: 1 <= j < i ==> |page(j)| > 0
    ensures i <= f <= k && |page(f)| == 0
    ensures forall j: nat :: 1 <= j < f ==> |page(j)| > 0
    decreases k - i
  {
    if |page(i)| == 0 then i else FirstEmptyFrom(page, i + 1, k)
  }

  /** The number N of leading non-empty pages of a listing. */
  ghost function PageCount(page: Listing): (n: nat)
    requires HasEmptyPage(page)
    ensures EndsAfter(page, n)
  {
    var k: nat :| 1 <= k && |page(k)| == 0;
    FirstEmptyFrom(page, 1, k) - 1
  }

  /** Only one N has N leading non-empty pages followed by an empty one. */
  lemma EndsAfterUnique(page: Listing, n: nat, m: nat)
    requires EndsAfter(page, n) && EndsAfter(page, m)
    ensures n == m
  {
  }

  /** What the collector returns for one category. */
  ghost function CategoryLinks(page: Listing): seq<Href>
    requires HasEmptyPage(page)
  {
    PagesLinks(page, PageCount(page))
  }

  lemma {:induction false} PagesLinksMembers(page: Listing, n: nat, x: Href)
    ensures x in PagesLinks(page, n) <==> exists j: nat :: 1 <= j <= n && x in page(j)
  {
    if n > 0 {
      PagesLinksMembers(page, n - 1, x);
      if x in page(n) {
        assert x in PagesLinks(page, n);
      }
    }
  }

  lemma {:induction false} PagesLinksLength(page: Listing, n: nat, width: nat)
    requires forall j: nat :: 1 <= j <= n ==> |page(j)| == width
    ensures |PagesLinks(page, n)| == n * width
  {
    if n > 0 {
      PagesLinksLength(page, n - 1, width);
    }
  }

  /**
   * Pages 1 and 2 with two hrefs each and an empty page 3: the collector
   * reports two pages and four links.
   */
  lemma TwoPagesOfTwo(page: Listing)
    requires |page(1)| == 2 && |page(2)| == 2 && |page(3)| == 0
    ensures HasEmptyPage(page)
    ensures PageCount(page) == 2 && |CategoryLinks(page)| == 4
  {
    assert EndsAfter(page, 2);
    EndsAfterUnique(page, PageCount(page), 2);
    PagesLinksLength(page, 2, 2);
  }

  /**
   * get_links_from_one_category: fetches pages 1, 2, ... (recorded in
   * `fetched`) until the first page with no product anchors, appending each
   * page's hrefs; `pageCount` is the reported number of pages.
   */
  method GetLinksFromOneCategory(page: Listing) returns (links: seq<Href>, pageCount: nat, fetched: seq<nat>)
    requires HasEmptyPage(page)
    ensures EndsAfter(page, pageCount) && pageCount == PageCount(page)
    ensures links == PagesLinks(page, pageCount) && links == CategoryLinks(page)
    ensures |fetched| == pageCount + 1
    ensures forall i :: 0 <= i < |fetched| ==> fetched[i] == i + 1
  {
    ghost var k: nat :| 1 <= k && |page(k)| == 0;
    var pageNumber: nat := 1;
    links, pageCount, fetched := [], 0, [];
    while true
      invariant 1 <= pageNumber <= k
      invariant forall j: nat :: 1 <= j < pageNumber ==> |page(j)| > 0
      invariant links == PagesLinks(page, pageNumber - 1)
      invariant |fetched| == pageNumber - 1
      invariant forall i :: 0 <= i < |fetched| ==> fetched[i] == i + 1
      decreases k - pageNumber
    {
      var productList := page(pageNumber);
      fetched := fetched + [pageNumber];
      if |productList| == 0 {
        pageCount := pageNumber - 1;
        break;
      }
      var i := 0;
      while i < |productList|
        invariant 0 <= i <= |productList|
        invariant links == PagesLinks(page, pageNumber - 1) + productList[..i]
      {
        links := links + [productList[i]];
        i := i + 1;
      }
      assert productList[..i] == productList;
      pageNumber := pageNumber + 1;
    }
    EndsAfterUnique(page, pageCount, PageCount(page));
  }

  predicate NoDuplicates(s: seq<Href>) {
    forall i, j :: 0 <= i < j < |s| ==> s[i] != s[j]
  }

  /** The position of the first occurrence of x in s. */
  function FirstIndex(s: seq<Href>, x: Href): (k: nat)
    requires x in s
    ensures k < |s| && s[k] == x
    ensures forall j :: 0 <= j < k ==> s[j] != x
  {
    if s[0] == x then 0 else 1 + FirstIndex(s[1..], x)
  }

  /** drop_duplicates: keeps the first occurrence of each link. */
  function Dedup(s: seq<Href>): (r: seq<Href>)
    ensures NoDuplicates(r)
    ensures forall x :: x in r <==> x in s
  {
    if s == [] then []
    else
      var init := s[..|s| - 1];
      assert s == init + [s[|s| - 1]];
      var p := Dedup(init);
      if s[|s| - 1] in p then p else p + [s[|s| - 1]]
  }

  /** The kept links appear in the order of their first occurrences. */
  lemma {:induction false} DedupKeepsFirstOccurrenceOrder(s: seq<Href>)
    ensures forall i, j :: 0 <= i < j < |Dedup(s)| ==> FirstIndex(s, Dedup(s)[i]) < FirstIndex(s, Dedup(s)[j])
  {
    if s != [] {
      var init := s[..|s| - 1];
      var last := s[|s| - 1];
      assert s == init + [last];
      DedupKeepsFirstOccurrenceOrder(init);
      var p := Dedup(init);
      forall x | x in init
        ensures FirstIndex(s, x) == FirstIndex(init, x)
      {
        var f := FirstIndex(init, x);
        assert s[f] == x;
        assert forall j :: 0 <= j < f ==> s[j] == init[j];
      }
      if last !in p {
        forall x | x in init
          ensures FirstIndex(s, x) < FirstIndex(s, last)
        {
          assert FirstIndex(s, last) == |init|;
        }
      }
    }
  }

  /** A list with no duplicates is its own drop_duplicates. */
  lemma {:induction false} DedupOfDistinct(s: seq<Href>)
    requires NoDuplicates(s)
    ensures Dedup(s) == s
  {
    if s != [] {
      var init := s[..|s| - 1];
      assert s == init + [s[|s| - 1]];
      DedupOfDistinct(init);
    }
  }

  ghost predicate AllHaveEmptyPage(categories: seq<Listing>) {
    forall c :: 0 <= c < |categories| ==> HasEmptyPage(categories[c])
  }

  /** The per-category results concatenated in configured category order. */
  ghost function CombinedLinks(categories: seq<Listing>): seq<Href>
    requires AllHaveEmptyPage(categories)
  {
    if categories == [] then []
    else CombinedLinks(categories[..|categories| - 1]) + CategoryLinks(categories[|categories| - 1])
  }

  lemma {:induction false} CombinedLinksMembers(categories: seq<Listing>, x: Href)
    requires AllHaveEmptyPage(categories)
    ensures x in CombinedLinks(categories) <==> exists c :: 0 <= c < |categories| && x in CategoryLinks(categories[c])
  {
    if categories != [] {
      var init := categories[..|categories| - 1];
      CombinedLinksMembers(init, x);
      if exists c :: 0 <= c < |categories| && x in CategoryLinks(categories[c]) {
        var c :| 0 <= c < |categories| && x in CategoryLinks(categories[c]);
        if c < |init| {
          assert categories[c] == init[c];
        }
      }
    }
  }

  /**
   * make_dataframe_of_links_from_all_categories: collects each category in
   * order, concatenates, then drops duplicates keeping first occurrences.
   */
  method MakeLinksOfAllCategories(categories: seq<Listing>) returns (allLinks: seq<Href>)
    requires AllHaveEmptyPage(categories)
    ensures allLinks == Dedup(CombinedLinks(categories))
    ensures NoDuplicates(allLinks)
    ensures forall x :: x in allLinks <==> exists c :: 0 <= c < |categories| && x in CategoryLinks(categories[c])
  {
    var combined: seq<Href> := [];
    for c := 0 to |categories|
      invariant combined == CombinedLinks(categories[..c])
    {
      var productLinks, _, _ := GetLinksFromOneCategory(categories[c]);
      assert categories[..c + 1][..c] == categories[..c];
      combined := combined + productLinks;
    }
    assert categories[..|categories|] == categories;
    allLinks := Dedup(combined);
    forall x
      ensures x in allLinks <==> exists c :: 0 <= c < |categories| && x in CategoryLinks(categories[c])
    {
      CombinedLinksMembers(categories, x);
    }
  }
}
