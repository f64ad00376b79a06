# ProductListAnalyzer: the price query, modelled in Dafny

ProductListAnalyzer reads a product catalogue and answers questions about the
articles in it. This project models the one analyzer operation whose body
exists in the repository: `ListAnalyzer.GetArticlesByPriceAndSortByUnitPrice`.
It keeps the articles whose `Price` equals a target price. It then orders
them ascending by their `PricePerUnitText` string with a stable sort
(`Enumerable.OrderBy`). Finally it returns them as a new list.

Files:

- `models.dfy` (module `Models`): the `Article` record with its six fields.
  Nullable fields become `Option`. `Price` is a `real`.
- `text_order.dfy` (module `TextOrder`): the order on sort keys. This is
  lexicographic order on strings, comparing characters in code-point order. It
  comes with the textbook prefix-or-first-difference definition, a proof that
  the two agree, and proofs that it is a total order.
- `stable_sort.dfy` (module `StableSort`): `OrderBy`, a stable insertion sort
  by a string key. Its contract says three things: the output is a
  permutation of the input, it is sorted, and it is stable. Stability is
  stated through key classes (`WithKey`). For every key, the output's
  elements with that key are exactly the input's elements with that key, in
  input order. A uniqueness lemma shows that every sorted sequence with the
  input's key classes is `OrderBy`'s result. So the model is the one stable
  sort, not merely some sort.
- `list_analyzer.dfy` (module `ListAnalyzer`): the price filter, the query
  itself and the lemmas about it. The lemmas cover idempotence, a
  characterization of the result, and a worked example of text-versus-number
  ordering. There is also an array-level wrapper that returns a freshly
  allocated list and leaves its input unchanged.

Notes on the code that the model follows:

- The method takes the target price as a `double` and compares it with `==`
  (ListAnalyzer.cs:9,11).
- `OrderBy` uses the default, culture-aware string comparer
  (ListAnalyzer.cs:12). The model compares strings character by character in
  code-point order instead; see "Left out".
- The controller calls an analyzer method `GetByPriceAndSortByUnitPrice`
  (APIController.cs:44,77). The service declares
  `GetArticlesByPriceAndSortByUnitPrice` instead. The model uses the declared
  name.

## Model

| member | source | states |
|---|---|---|
| ListAnalyzer.WithPrice | ProductListAnalyzer/Services/ListAnalyzer.cs:10-11 | every kept article has the target price; each article at the target price keeps its input multiplicity, and every other article has multiplicity zero |
| ListAnalyzer.GetArticlesByPriceAndSortByUnitPrice | ProductListAnalyzer/Services/ListAnalyzer.cs:9-14 | every result article has the target price; the result's multiset is the input's restricted to the target price, so each matching input article is in it and nothing else is; it is no longer than the input; it is empty exactly when no input article has the target price; it is sorted by `PricePerUnitText`; for each text, its articles with that text are the input's articles with that text and price, in input order (stability) |
| ListAnalyzer.WherePreservesKeyClasses | ProductListAnalyzer/Services/ListAnalyzer.cs:11-12 | filtering by price and then taking one text's articles gives the same sequence as doing the two in the opposite order |
| ListAnalyzer.WithPriceAppend | ProductListAnalyzer/Services/ListAnalyzer.cs:11 | filtering a concatenation is the concatenation of the filtered parts, so the filter keeps input order |
| ListAnalyzer.WithPriceSingle | ProductListAnalyzer/Services/ListAnalyzer.cs:11 | a single article is kept exactly when its price equals the target price |
| ListAnalyzer.WithPriceAllAtPrice | ProductListAnalyzer/Services/ListAnalyzer.cs:11 | the price filter leaves a list unchanged when every article in it already has the target price |
| ListAnalyzer.GetArticlesCharacterization | ProductListAnalyzer/Services/ListAnalyzer.cs:10-13 | any sequence sorted by the text whose articles of each text are the input's articles of that text and price, in input order, equals the query's result |
| ListAnalyzer.GetArticlesIdempotent | ProductListAnalyzer/Services/ListAnalyzer.cs:10-13 | running the query on its own result with the same price returns that result unchanged |
| ListAnalyzer.TextOrderNotNumericOrder | ProductListAnalyzer/Services/ListAnalyzer.cs:11-12 | with articles priced 17.99 at "(9.99€/Liter)" and "(10.50€/Liter)" and one at 16.99, the result is the 10.50 article then the 9.99 article: the order follows the text, not the number |
| ListAnalyzer.GetArticlesByPriceAndSortByUnitPriceToList | ProductListAnalyzer/Services/ListAnalyzer.cs:9-13 | the result is a newly allocated list holding the query's result, and the input list is left unchanged |
| StableSort.WithKey | ProductListAnalyzer/Services/ListAnalyzer.cs:12 | a key class holds only elements of the sequence with that key, holds every such element, and is no longer than the sequence |
| StableSort.WithKeyAppend | ProductListAnalyzer/Services/ListAnalyzer.cs:12 | the key class of a concatenation is the concatenation of the parts' key classes, so key classes keep input order |
| StableSort.WithKeySingle | ProductListAnalyzer/Services/ListAnalyzer.cs:12 | a single element belongs to the key class of its own key and to no other |
| StableSort.Insert | ProductListAnalyzer/Services/ListAnalyzer.cs:12 | inserting adds exactly one occurrence of the element to the multiset |
| StableSort.OrderBy | ProductListAnalyzer/Services/ListAnalyzer.cs:12 | the output is a permutation of the input, is sorted ascending by the key, and has the same key classes as the input (stable) |
| StableSort.InsertSorted | ProductListAnalyzer/Services/ListAnalyzer.cs:12 | inserting into a sorted sequence gives a sorted sequence |
| StableSort.InsertKeepsKeyClasses | ProductListAnalyzer/Services/ListAnalyzer.cs:12 | inserting an element puts it at the front of its own key class and changes no other key class |
| StableSort.SortedKeyClassesDetermine | ProductListAnalyzer/Services/ListAnalyzer.cs:12 | two sorted sequences with the same key classes are equal |
| StableSort.OrderByUnique | ProductListAnalyzer/Services/ListAnalyzer.cs:12 | any sorted sequence with the input's key classes is the stable sort's output |
| StableSort.OrderBySortedIsIdentity | ProductListAnalyzer/Services/ListAnalyzer.cs:12 | sorting an already sorted sequence returns it unchanged |
| TextOrder.LexLeMatchesSpec | ProductListAnalyzer/Services/ListAnalyzer.cs:12 | the key comparison holds exactly when the first text is a prefix of the second or has the smaller character at the first position where they differ |
| TextOrder.LexLeImpliesSpec | ProductListAnalyzer/Services/ListAnalyzer.cs:12 | when the key comparison holds, the first text is a prefix of the second or is smaller at the first difference |
| TextOrder.SpecImpliesLexLe | ProductListAnalyzer/Services/ListAnalyzer.cs:12 | when the first text is a prefix of the second or is smaller at the first difference, the key comparison holds |
| TextOrder.LexLeReflexive | ProductListAnalyzer/Services/ListAnalyzer.cs:12 | every text is ordered with itself |
| TextOrder.LexLeAntisymmetric | ProductListAnalyzer/Services/ListAnalyzer.cs:12 | two texts ordered both ways are equal |
| TextOrder.LexLeTransitive | ProductListAnalyzer/Services/ListAnalyzer.cs:12 | the key order is transitive |
| TextOrder.LexLeTotal | ProductListAnalyzer/Services/ListAnalyzer.cs:12 | any two texts are ordered one way or the other |

## Left out

- Culture-aware string comparison: in .NET, `OrderBy` on a string key uses the current culture's comparer. The model uses lexicographic order with characters compared by code point. That is not .NET's ordinal order either: ordinal compares UTF-16 code units, which ranks characters outside the Basic Multilingual Plane differently (ordinal puts U+10000 before U+FFFF), and Dafny strings cannot hold the lone surrogates a .NET string can. A culture comparer can rank characters differently (case, accents). It can also treat distinct strings as equal, for example with ignorable characters, and it would then keep such articles in input order. Those culture rules are not modelled.
- IEEE-754 behaviour of `double`: `Price` is a `real`. NaN (which is not equal to itself) and the infinities are not modelled. Finite values compare as in the source.
- `GetMostExpensive`, `GetCheapest`, `GetMostBottles` and `GetByPriceAndSortByUnitPrice`: the controller calls them, but no body for them exists in the repository's files. So there is nothing to model them from. This includes the price-per-unit parser and the bottle-count pattern.
- The HTTP controller routes, URL fetching, JSON deserialization, logging and status codes (APIController.cs, ProductData.cs): these are I/O and web wiring with no logic of the analyzer's own.
- Flattening products into articles (APIController.cs:108) and the `Product` record: this is part of the I/O path. It relies on an `Articles` property that `Product.cs` does not declare.
- Object identity of articles: the source's lists hold references to `Article` objects, while the model's `Article` is an immutable value. The only reference-level promise, a fresh list with the input left alone, is stated on the array-level wrapper.
- Null values: a null `articles` list makes `Where` throw `ArgumentNullException`, and a null element makes `a.Price` throw `NullReferenceException` (ListAnalyzer.cs:10-11). A `PricePerUnitText` can be null despite its `string.Empty` default (Article.cs:16) when deserialized from an explicit JSON null; the default comparer then sorts it before every string, the empty string included (ListAnalyzer.cs:12). The model's `seq<Article>`, `Article` and `string` have no null, so none of these three cases is modelled.
