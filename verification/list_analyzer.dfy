/**
 * The analyzer service (ProductListAnalyzer/Services/ListAnalyzer.cs): the
 * articles at one exact price, ordered by their price-per-unit text.
 */
module ListAnalyzer {
  import opened Models
  import opened TextOrder
  import opened StableSort

  /** The articles priced exactly `targetPrice`, in input order (the `Where` step). */
  function WithPrice(articles: seq<Article>, targetPrice: Price): (r: seq<Article>)
    ensures |r| <= |articles|
    ensures forall i :: 0 <= i < |r| ==> r[i].price == targetPrice
    ensures forall a :: multiset(r)[a] == if a.price == targetPrice then multiset(articles)[a] else 0
  {
    if |articles| == 0 then []
    else
      assert articles == [articles[0]] + articles[1..];
      if articles[0].price == targetPrice then [articles[0]] + WithPrice(articles[1..], targetPrice)
      else WithPrice(articles[1..], targetPrice)
  }

  /** The sort key: the formatted price-per-unit text, compared as text. */
  function UnitPriceText(a: Article): string {
    a.pricePerUnitText
  }

  /**
   * The articles of `articles` priced exactly `targetPrice`, sorted ascending
   * by `pricePerUnitText`, with articles of equal text kept in input order.
   */
  function GetArticlesByPriceAndSortByUnitPrice(articles: seq<Article>, targetPrice: Price): (r: seq<Article>)
    ensures forall i :: 0 <= i < |r| ==> r[i].price == targetPrice
    ensures forall a :: multiset(r)[a] == if a.price == targetPrice then multiset(articles)[a] else 0
    ensures forall i :: 0 <= i < |articles| && articles[i].price == targetPrice ==> articles[i] in r
    ensures |r| <= |articles|
    ensures r == [] <==> forall i :: 0 <= i < |articles| ==> articles[i].price != targetPrice
    ensures SortedBy(r, UnitPriceText)
    ensures forall k :: WithKey(r, UnitPriceText, k) == WithPrice(WithKey(articles, UnitPriceText, k), targetPrice)
  {
    var atPrice := WithPrice(articles, targetPrice);
    var r := OrderBy(atPrice, UnitPriceText);
    WherePreservesKeyClasses(articles, targetPrice);
    assert |r| == |multiset(r)| == |multiset(atPrice)| == |atPrice|;
    assert r == [] ==> forall i :: 0 <= i < |articles| ==> articles[i].price != targetPrice by {
      if r != [] {
        assert r[0] in multiset(r);
      }
    }
    r
  }

  /** Filtering by price and by key class commute. */
  lemma {:induction false} WherePreservesKeyClasses(articles: seq<Article>, targetPrice: Price)
    ensures forall k :: WithKey(WithPrice(articles, targetPrice), UnitPriceText, k)
                        == WithPrice(WithKey(articles, UnitPriceText, k), targetPrice)
    decreases |articles|
  {
    if |articles| > 0 {
      WherePreservesKeyClasses(articles[1..], targetPrice);
    }
  }

  /**
   * The filter works article by article: filtering a concatenation filters
   * each part and keeps the parts in order.
   */
  lemma {:induction false} WithPriceAppend(x: seq<Article>, y: seq<Article>, targetPrice: Price)
    ensures WithPrice(x + y, targetPrice) == WithPrice(x, targetPrice) + WithPrice(y, targetPrice)
    decreases |x|
  {
    if |x| > 0 {
      var xy := x + y;
      assert xy[0] == x[0] && xy[1..] == x[1..] + y;
      WithPriceAppend(x[1..], y, targetPrice);
      if x[0].price == targetPrice {
        assert WithPrice(xy, targetPrice) == [x[0]] + WithPrice(x[1..] + y, targetPrice);
        assert WithPrice(x, targetPrice) == [x[0]] + WithPrice(x[1..], targetPrice);
      } else {
        assert WithPrice(xy, targetPrice) == WithPrice(x[1..] + y, targetPrice);
        assert WithPrice(x, targetPrice) == WithPrice(x[1..], targetPrice);
      }
    } else {
      assert x + y == y;
    }
  }

  /** A single article is kept exactly when it has the target price. */
  lemma WithPriceSingle(a: Article, targetPrice: Price)
    ensures WithPrice([a], targetPrice) == if a.price == targetPrice then [a] else []
  {
    assert [a][1..] == [];
  }

  /** Every article of `articles` is priced `targetPrice`, so filtering keeps them all. */
  lemma {:induction false} WithPriceAllAtPrice(articles: seq<Article>, targetPrice: Price)
    requires forall i :: 0 <= i < |articles| ==> articles[i].price == targetPrice
    ensures WithPrice(articles, targetPrice) == articles
    decreases |articles|
  {
    if |articles| > 0 {
      WithPriceAllAtPrice(articles[1..], targetPrice);
      assert articles == [articles[0]] + articles[1..];
    }
  }

  /**
   * The result is the only sequence that is sorted by the text and whose
   * articles of each text are exactly the input's articles of that text and
   * price, in input order.
   */
  lemma GetArticlesCharacterization(articles: seq<Article>, targetPrice: Price, r: seq<Article>)
    requires SortedBy(r, UnitPriceText)
    requires forall k :: WithKey(r, UnitPriceText, k) == WithPrice(WithKey(articles, UnitPriceText, k), targetPrice)
    ensures r == GetArticlesByPriceAndSortByUnitPrice(articles, targetPrice)
  {
    WherePreservesKeyClasses(articles, targetPrice);
    OrderByUnique(WithPrice(articles, targetPrice), r, UnitPriceText);
  }

  /** Running the query again on its own result changes nothing. */
  lemma GetArticlesIdempotent(articles: seq<Article>, targetPrice: Price)
    ensures var r := GetArticlesByPriceAndSortByUnitPrice(articles, targetPrice);
            GetArticlesByPriceAndSortByUnitPrice(r, targetPrice) == r
  {
    var r := GetArticlesByPriceAndSortByUnitPrice(articles, targetPrice);
    WithPriceAllAtPrice(r, targetPrice);
    OrderBySortedIsIdentity(r, UnitPriceText);
  }

  /**
   * The order is that of the text, not of the number in it: "(10.50€/Liter)"
   * sorts before "(9.99€/Liter)" because '1' comes before '9'. An article at
   * another price is dropped.
   */
  lemma TextOrderNotNumericOrder()
    ensures var nine := Article(1, None, 17.99, "Liter", "(9.99€/Liter)", None);
            var ten := Article(2, None, 17.99, "Liter", "(10.50€/Liter)", None);
            var other := Article(3, None, 16.99, "Liter", "(1.00€/Liter)", None);
            GetArticlesByPriceAndSortByUnitPrice([nine, other, ten], 17.99) == [ten, nine]
  {
  }

  /**
   * The list-level operation: reads the input list without changing it and
   * returns a newly allocated list holding the query's result.
   */
  method GetArticlesByPriceAndSortByUnitPriceToList(articles: array<Article>, targetPrice: Price)
    returns (result: array<Article>)
    ensures fresh(result)
    ensures articles[..] == old(articles[..])
    ensures result[..] == GetArticlesByPriceAndSortByUnitPrice(articles[..], targetPrice)
  {
    var r := GetArticlesByPriceAndSortByUnitPrice(articles[..], targetPrice);
    result := new Article[|r|](i requires 0 <= i < |r| => r[i]);
  }
}
