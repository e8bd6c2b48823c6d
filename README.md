# Sorting article listings by comment count

This project models the one piece of application logic in a small news-site
REST API: the helper `sortArticlesByCommentCount(articles, direction)`
in `utils/util-functions.js`. `routers/articles-router.js:2` imports
`getAllArticles` from `controllers/articles-controller.js`, but that file
defines only `getArticle`, so the listing code that would call this helper is
absent and is not modelled. The endpoint tests at
`__tests__/utils.test.js:668-683` request
`GET /api/articles?sort_by=comment_count[&order=asc]`, and this helper is
presumably what serves them.

The helper calls JavaScript's `Array.prototype.sort` on the caller's array,
with a comparator that subtracts comment counts. That sort works in place,
returns the same array and is stable (ECMAScript has required stability
since its 2019 edition). The direction is ascending only when `direction` is
exactly the string `"asc"`. Every other value sorts descending, including
`"desc"`, `undefined` and `"ASC"`.

The model has two modules:

- `ArticleOrder` (`article_order.dfy`) holds the `Article` record and the
  meaning of "sorted in a direction" (`InOrder`, `SortedBy`). It states
  stability through `Ties(s, k)`: the articles of `s` with comment count `k`,
  kept in their order. `SameTies(r, s)` says `r` keeps every such group of
  `s` unchanged. It also holds a reference stable sort `StableSort`, written
  as a functional insertion sort. The lemmas prove that `StableSort` is
  sorted, a permutation and stable. They also prove that these three
  properties pick out exactly one result (`SortedTiesUnique`,
  `StableSortCharacterized`).
- `UtilFunctions` (`util_functions.dfy`) holds the helper itself,
  `SortArticlesByCommentCount`, as a method over `array<Article>` with
  `modifies articles`. It sorts in place by insertion, swapping neighbours
  only when the source's comparator (`CompareByCommentCount`) returns a
  positive value. The method returns the same array. Its postconditions tie
  the new contents to `StableSort` of the old contents and state each
  promised property outright.

Because a sequence that is sorted and keeps every tie group is unique, the
result does not depend on which stable algorithm the JavaScript engine uses.
An insertion sort yields the same array as the engine's own stable sort.

The direction is an `Option<string>`: `None` stands for a missing query value
(`undefined`), and `Some(s)` for a string. The test at
`__tests__/utils.test.js:668-683` checks both directions through the listing
endpoint. The method's two direction postconditions state what that test
checks.

## Model

| member | source | states |
|---|---|---|
| `UtilFunctions.SortArticlesByCommentCount` | utils/util-functions.js:1-11 | Sorts the given array in place and returns that same array. The new contents equal the reference stable sort of the old contents. If the direction is exactly `"asc"` the result is non-decreasing by comment count; for any other direction, missing or `"ASC"` included, it is non-increasing. The result is a permutation of the input (same multiset of records). Articles with equal comment counts keep their relative order. An input already sorted in the chosen direction is returned unchanged, and so is any array of length 0 or 1. |
| `UtilFunctions.InsertIntoSortedPrefix` | utils/util-functions.js:3-9 | One pass of the in-place sort. Given a sorted prefix of length `i`, it leaves the first `i + 1` articles sorted. It keeps every tie group of the array and does not touch anything after position `i`. |
| `UtilFunctions.IsAscending` | utils/util-functions.js:2 | The listing is ascending exactly when the direction is present and is exactly the string `"asc"` (`Some("asc")`), so a missing direction is never ascending. |
| `UtilFunctions.OnlyExactAscIsAscending` | utils/util-functions.js:2-6 | `"asc"` selects ascending order; `"desc"`, a missing value, `"ASC"`, `"Asc"` and the empty string all fall to the descending branch. |
| `UtilFunctions.CompareByCommentCount` | utils/util-functions.js:3-9 | Models the two subtraction comparators. The result is non-positive exactly when the first article may come first in the chosen direction. It is non-negative exactly when the second one may come first. It is zero exactly when the two comment counts are equal. |
| `UtilFunctions.MovedIsSortedPass` | utils/util-functions.js:3-9 | Where a pass stops, the comparator put every skipped article after the moved one, and did not put the article before it after it. From those facts, the first `i + 1` articles are sorted and every tie group is kept. |
| `UtilFunctions.MovedIsSorted` | utils/util-functions.js:3-9 | Moving an article left past articles it precedes, and stopping after one it may follow, yields a sorted prefix. |
| `UtilFunctions.MovedKeepsTies` | utils/util-functions.js:3-9 | Moving an article left past articles whose comment counts all differ from its own keeps every tie group. This is why the in-place sort is stable. |
| `ArticleOrder.Ties` | utils/util-functions.js:3-9 | The tie group of count `k` is no longer than the listing, and every article in it has comment count `k`. |
| `ArticleOrder.InsertSorted` | utils/util-functions.js:3-9 | Inserting an article into a sorted listing keeps it sorted. |
| `ArticleOrder.InsertPermutes` | utils/util-functions.js:3-9 | Inserting an article adds exactly that record and drops none. |
| `ArticleOrder.InsertTies` | utils/util-functions.js:3-9 | Inserting an article before the first article it may precede keeps every tie group in order. |
| `ArticleOrder.StableSortSorted` | utils/util-functions.js:2-9 | The reference sort is ordered in the chosen direction: non-decreasing when ascending, non-increasing otherwise. |
| `ArticleOrder.StableSortPermutes` | utils/util-functions.js:3-9 | The reference sort is a permutation of its input: same length and same multiset of article records. |
| `ArticleOrder.StableSortKeepsTies` | utils/util-functions.js:3-9 | The reference sort is stable. Articles with equal comment counts keep their original relative order. |
| `ArticleOrder.FirstIsExtreme` | utils/util-functions.js:3-9 | The first article of a sorted listing has the smallest comment count when ascending, or the largest when descending, of any article present. |
| `ArticleOrder.SortedTiesUnique` | utils/util-functions.js:3-9 | Two listings sorted in the same direction that agree on every tie group are equal. Sortedness and stability together fix the result. |
| `ArticleOrder.StableSortCharacterized` | utils/util-functions.js:3-9 | A listing equals the stable sort of `s` if and only if it is sorted in that direction and keeps every tie group of `s`. |
| `ArticleOrder.SortedIsFixpoint` | utils/util-functions.js:3-9 | Sorting a listing that is already sorted in the same direction leaves it unchanged. |
| `ArticleOrder.StableSortIdempotent` | utils/util-functions.js:3-9 | Sorting twice in the same direction gives the same listing as sorting once. |

## Left out

- The rest of the API is not part of this model: the Express app setup, 404 fallback and error middleware (`app.js`), the routers, the controllers and the SQL-issuing models. The app and routers are framework wiring. The controllers and models are HTTP and database glue with no logic of their own to verify.
- The listing controller `getAllArticles` is not part of this model. `routers/articles-router.js:2` imports it, but `controllers/articles-controller.js` defines only `getArticle`, so how the listing attaches comment counts, handles `topic`/`sort_by`/`order`, or calls this helper is not defined in those files. Also not part of this model: `createRef`, `formatComments` and `convertTimestampToDate` from `db/seeds/utils`.
- SortArticlesByCommentCount: comment counts are unbounded integers. JavaScript numbers are IEEE doubles. For finite doubles the sign of `a - b` still matches the sign of the exact difference, and it is zero only when `a == b`, so the comparator orders finite counts correctly. What the model does not capture: not every integer above 2^53 can be represented, `Infinity - Infinity` is `NaN`, and a `NaN`, non-numeric or missing `comment_count` would make the comparator inconsistent.
- SortArticlesByCommentCount: articles are immutable record values, whereas the source's array holds references to objects. The model therefore says nothing about aliasing between the array's objects and other references. "No record's fields change" holds by construction, and the multiset postcondition states that only positions move.
- SortArticlesByCommentCount: the direction is an `Option<string>`. A non-string query value (a number, or an array from a repeated query key) is not modelled. Such values also fail the exact `=== 'asc'` test, so they would sort descending, like any string other than `"asc"`.
- The engine's own sorting algorithm is not modelled: the model uses an insertion sort. `SortedTiesUnique` shows that every stable sort gives the same array, so only the number of comparisons and their order differ.
- Elsewhere the listing endpoint accepts `order` without regard to case: the test at `__tests__/utils.test.js:648-655` sorts titles ascending with `order=ASC`. This helper compares exactly with `"asc"`, so `order=ASC` passed to it would sort comment counts descending. Whether the missing `getAllArticles` controller lower-cases the value first is unknown, so the model follows the helper's code.
