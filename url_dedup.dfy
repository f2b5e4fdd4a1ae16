/**
 * The URL deduplication step of the pipeline's entry point: the search
 * results of all queries are concatenated, and only the first item with
 * each URL is kept.
 */
module UrlDedup {
  import opened News

  /** The URLs of the items. */
  function Urls(items: seq<NewsItem>): set<string> {
    set x | x in items :: x.url
  }

  /** No two items share a URL. */
  predicate DistinctUrls(items: seq<NewsItem>) {
    forall i, j :: 0 <= i < j < |items| ==> items[i].url != items[j].url
  }

  /** items[i] is the first item with its URL. */
  predicate IsFirst(items: seq<NewsItem>, i: nat)
    requires i < |items|
  {
    forall j :: 0 <= j < i ==> items[j].url != items[i].url
  }

  /** The first item of each URL, in input order. */
  function UniqueByUrl(items: seq<NewsItem>): seq<NewsItem> {
    if items == [] then []
    else
      var init := items[..|items| - 1];
      var last := items[|items| - 1];
      UniqueByUrl(init) + if last.url in Urls(init) then [] else [last]
  }

  /** The positions of the first item of each URL, in increasing order. */
  function FirstPositions(items: seq<NewsItem>): (r: seq<nat>)
    ensures forall k :: 0 <= k < |r| ==> r[k] < |items| && IsFirst(items, r[k])
    ensures forall k, l :: 0 <= k < l < |r| ==> r[k] < r[l]
  {
    if items == [] then []
    else
      var init := items[..|items| - 1];
      var last := items[|items| - 1];
      var rest := FirstPositions(init);
      assert forall k :: 0 <= k < |rest| ==> IsFirst(items, rest[k]) by {
        forall k | 0 <= k < |rest| ensures IsFirst(items, rest[k]) {
          assert IsFirst(init, rest[k]);
        }
      }
      if last.url in Urls(init) then rest
      else
        assert IsFirst(items, |items| - 1) by {
          forall j | 0 <= j < |items| - 1 ensures items[j].url != last.url {
            assert init[j] in init;
          }
        }
        rest + [|items| - 1]
  }

  lemma UrlsSnoc(init: seq<NewsItem>, x: NewsItem)
    ensures Urls(init + [x]) == Urls(init) + {x.url}
  {
    assert forall y :: y in init + [x] <==> y in init || y == x;
  }

  /** The i-th kept item is the item at the i-th first position: the output is the input restricted to first occurrences. */
  lemma {:induction false} UniqueAreFirstOccurrences(items: seq<NewsItem>)
    ensures |UniqueByUrl(items)| == |FirstPositions(items)|
    ensures forall k :: 0 <= k < |FirstPositions(items)| ==> UniqueByUrl(items)[k] == items[FirstPositions(items)[k]]
  {
    if items != [] {
      var init := items[..|items| - 1];
      UniqueAreFirstOccurrences(init);
    }
  }

  /** Every first occurrence is kept: a position is in FirstPositions exactly when it is the first of its URL. */
  lemma {:induction false} EveryFirstKept(items: seq<NewsItem>, i: nat)
    requires i < |items| && IsFirst(items, i)
    ensures i in FirstPositions(items)
  {
    var init := items[..|items| - 1];
    var last := items[|items| - 1];
    if i < |items| - 1 {
      assert IsFirst(init, i);
      EveryFirstKept(init, i);
    }
  }

  /** The kept items carry every URL of the input, and only those. */
  lemma {:induction false} SameUrls(items: seq<NewsItem>)
    ensures Urls(UniqueByUrl(items)) == Urls(items)
  {
    if items != [] {
      var init := items[..|items| - 1];
      var last := items[|items| - 1];
      SameUrls(init);
      assert items == init + [last];
      UrlsSnoc(init, last);
      if last.url !in Urls(init) {
        UrlsSnoc(UniqueByUrl(init), last);
      }
    }
  }

  /** No URL is kept twice. */
  lemma {:induction false} UniqueHasDistinctUrls(items: seq<NewsItem>)
    ensures DistinctUrls(UniqueByUrl(items))
  {
    if items != [] {
      var init := items[..|items| - 1];
      var last := items[|items| - 1];
      UniqueHasDistinctUrls(init);
      SameUrls(init);
      var u := UniqueByUrl(init);
      if last.url !in Urls(init) {
        forall i | 0 <= i < |u| ensures u[i].url != last.url {
          assert u[i] in u;
        }
      }
    }
  }

  /** Appending an item keeps the URLs distinct exactly when its URL is new. */
  lemma DistinctSnoc(init: seq<NewsItem>, x: NewsItem)
    ensures DistinctUrls(init + [x]) <==> DistinctUrls(init) && x.url !in Urls(init)
  {
    var items := init + [x];
    if DistinctUrls(items) {
      forall i, j | 0 <= i < j < |init| ensures init[i].url != init[j].url {
        assert items[i] == init[i] && items[j] == init[j];
      }
      forall y | y in init ensures y.url != x.url {
        var j :| 0 <= j < |init| && init[j] == y;
        assert items[j] == y && items[|init|] == x;
      }
    }
    if DistinctUrls(init) && x.url !in Urls(init) {
      forall i, j | 0 <= i < j < |items| ensures items[i].url != items[j].url {
        assert items[i] == init[i];
        if j < |init| {
          assert items[j] == init[j];
        } else {
          assert init[i] in init;
        }
      }
    }
  }

  /** Nothing is dropped exactly when the URLs of the input are already distinct. */
  lemma {:induction false} NothingDroppedIffDistinct(items: seq<NewsItem>)
    ensures |UniqueByUrl(items)| == |items| <==> DistinctUrls(items)
  {
    if items != [] {
      var init := items[..|items| - 1];
      var last := items[|items| - 1];
      NothingDroppedIffDistinct(init);
      UniqueAreFirstOccurrences(init);
      PositionsBounded(init);
      assert items == init + [last];
      DistinctSnoc(init, last);
    }
  }

  /** There are no more first positions than items. */
  lemma {:induction false} PositionsBounded(items: seq<NewsItem>)
    ensures |FirstPositions(items)| <= |items|
  {
    if items != [] {
      PositionsBounded(items[..|items| - 1]);
    }
  }

  /** The loop of the entry point: keep an item when its URL has not been seen yet. */
  method DedupByUrl(allItems: seq<NewsItem>) returns (uniqueItems: seq<NewsItem>)
    ensures uniqueItems == UniqueByUrl(allItems)
  {
    var seen: set<string> := {};
    uniqueItems := [];
    for k := 0 to |allItems|
      invariant seen == Urls(allItems[..k])
      invariant uniqueItems == UniqueByUrl(allItems[..k])
    {
      var item := allItems[k];
      assert allItems[..k + 1] == allItems[..k] + [item];
      UrlsSnoc(allItems[..k], item);
      if item.url !in seen {
        seen := seen + {item.url};
        uniqueItems := uniqueItems + [item];
      }
    }
    assert allItems[..|allItems|] == allItems;
  }
}
