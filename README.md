# Course recommendation and catalog search, modelled in Dafny

This project models the two pieces of logic in `backend/recommendation_model.py`, a small Flask service over a Firestore database:

- **Recommendation selection** (`get_recommendations`). The service reads the search log (`user_searches`) and the course-view log (`user_course_views`). If the target user has searched, it ranks every search-log row by text similarity to the user's joined queries. It keeps ranked positions 2 to 6 (`[1:6]`) and takes the distinct users of those rows. It collects, in first-appearance order, the distinct courses those users viewed. It drops the courses the target user has already viewed and returns the first `num_recommendations` of the rest. A user with no searches gets `[]`.
- **Catalog search** (the loop in `search_courses`). It keeps every course whose lower-cased title or description contains the lower-cased query, in catalog order. A missing field reads as `""`.

Modules:

- `Wrappers` (wrappers.dfy): `Option` and `Result`.
- `Sequences` (sequences.dfy): `NoDuplicates` and `Dedup`, which models pandas' order-preserving `unique()`.
- `Recommendation` (recommendation.dfy): pure functions over the two logs. The similarity ranking (`sim_scores[0].argsort()[::-1]`) is a parameter: any permutation of the search-log row indices (`IsRanking`). So every result proved holds whatever the scores are and however ties are broken.
- `CatalogSearch` (catalog_search.dfy): the filter loop as a method, `SearchCourses`, proved against the specification function `Matching`.

An empty search log does not give an empty result: `pd.DataFrame([])` has no columns, so `search_df['userId']` (line 45) raises `KeyError('userId')` when the search log is empty. `view_df['userId']` (line 48) raises the same error when the view log is empty. Line 48 runs before the test at line 51, so this happens for every user, whether or not they have searched. `Recommend` returns `Failure(KeyError("userId"))` exactly in those two cases. The route turns that into an HTTP 500.

## Model

| member | source | states |
|---|---|---|
| `Sequences.Dedup` | backend/recommendation_model.py:65-68 | `unique()` yields each value of its input exactly once: the result has no duplicates and the same members as the input |
| `Sequences.DedupOfPrefix` | backend/recommendation_model.py:68 | deduplicating a prefix of the input gives a prefix of the deduplicated input, so values keep their first-appearance order |
| `Recommendation.RankingCoversRows` | backend/recommendation_model.py:64 | a ranking (`IsRanking`: as many distinct in-range indices as rows) ranks every row of the search log, i.e. it is a permutation, as `argsort()[::-1]` returns |
| `Recommendation.QueriesBy` | backend/recommendation_model.py:45 | the user's queries are exactly the queries of that user's search events; the list is empty iff the user has no search event |
| `Recommendation.CoursesViewedBy` | backend/recommendation_model.py:48 | the course ids selected for a set of users are exactly the courses some user of the set viewed (used for the target user's own views and for the similar users' views) |
| `Recommendation.CoursesViewedByAppend` | backend/recommendation_model.py:68 | the selection keeps view-log order: it distributes over concatenation of the log |
| `Recommendation.Window` | backend/recommendation_model.py:64 | the `[1:6]` slice holds the rows at ranked positions 2 to 6 that exist, in ranking order: its k-th entry is ranked position k+2, and its length is `min(|ranking|, 6) - 1` (0 for an empty log) |
| `Recommendation.SimilarUsers` | backend/recommendation_model.py:64-65 | at most 5 distinct users, and a user is similar iff it issued the search at one of ranked positions 2 to 6 |
| `Recommendation.CandidateCourses` | backend/recommendation_model.py:68 | the candidates have no duplicates and are exactly the courses some similar user viewed |
| `Recommendation.Exclude` | backend/recommendation_model.py:71 | a course is kept iff it is a candidate and not among the user's views; no duplicates are introduced; the list does not grow |
| `Recommendation.ExcludeAppend` | backend/recommendation_model.py:71 | the exclusion keeps candidate order: it distributes over concatenation |
| `Recommendation.Unseen` | backend/recommendation_model.py:64-71 | the list before truncation has no duplicates and holds exactly the courses a similar user viewed and the target user did not |
| `Recommendation.Recommend` | backend/recommendation_model.py:40-75 | it fails with `KeyError('userId')` iff a log is empty; a user without searches gets `[]`; otherwise the result has at most `n` entries, no duplicates, no course the user viewed, and only courses a similar user viewed |
| `Recommendation.RecommendTakesUnseenPrefix` | backend/recommendation_model.py:71-73 | for a user with searches, the result is the prefix of the unseen list of length `min(n, |unseen|)`, so every unseen course is returned when capacity allows |
| `CatalogSearch.LowerChar` | backend/recommendation_model.py:115-116 | an ASCII upper-case letter maps to its own lower-case letter; every other character is unchanged |
| `CatalogSearch.FieldText` | backend/recommendation_model.py:115-116 | `course_data.get(field, '')`: a present field reads as its value, an absent one as `""` |
| `CatalogSearch.Lower` | backend/recommendation_model.py:115-116 | `str.lower()` keeps the length and lower-cases each character by `LowerChar` |
| `CatalogSearch.LowerIdempotent` | backend/recommendation_model.py:115-116 | lower-casing an already lower-cased string changes nothing |
| `CatalogSearch.ContainsIffOccurs` | backend/recommendation_model.py:115-116 | `Contains`, the model of Python's substring test `in`, holds iff the needle occurs at some position of the haystack |
| `CatalogSearch.ContainsEmpty` | backend/recommendation_model.py:105 | the empty query (the default of `request.args.get('query', '')`) is contained in every string |
| `CatalogSearch.MatchesIffOccurs` | backend/recommendation_model.py:114-116 | `Matches`, the `if` test of the loop, holds of a course iff the lower-cased query occurs in its lower-cased title or description, a missing field reading as `""` |
| `CatalogSearch.Matching` | backend/recommendation_model.py:112-117 | the search results are exactly the catalog courses that match the query |
| `CatalogSearch.MatchingAppend` | backend/recommendation_model.py:112-117 | the results keep catalog order: filtering distributes over concatenation |
| `CatalogSearch.EmptyQueryMatchesAll` | backend/recommendation_model.py:105-117 | an empty query returns the whole catalog, in order |
| `CatalogSearch.QueryCaseIgnored` | backend/recommendation_model.py:115-116 | lower-casing the query first does not change the results |
| `CatalogSearch.SearchCourses` | backend/recommendation_model.py:112-117 | the loop that appends each matching course returns the ordered filter `Matching` of the catalog, so a course is in the result iff it is in the catalog and matches |

## Left out

- Firebase credentials, client set-up and the collection reads (lines 13-38 and 108-109) are I/O. The logs and the catalog are parameters instead.
- `TfidfVectorizer` and `cosine_similarity` (lines 53-61) are floating-point code in a library outside this model. Their outcome enters as the `ranking` parameter, and no tie-break is fixed. Failures inside them, such as an empty vocabulary when every query is a stop word, are not modelled.
- `Recommend`: there is no property tying the result to how similar the other users' queries are, for example that a user with the same queries as the target is in the window. That needs the scores, which are not modelled.
- The Flask routes, the JSON wrapping, the status codes and the `try/except` mapping (lines 77-124) are web plumbing. That includes the 400 answer for a missing `userId` and the `<query>` path variable of the search route, which the handler does not accept.
- `Recommend`: `n` is a natural number. Python's `[:n]` with a negative `n` drops trailing elements; this is not modelled. The route always uses the default 5.
- `CatalogSearch.Lower`: only ASCII letters are lower-cased. Full Unicode `str.lower()` is not modelled.
- Event timestamps are not modelled because the logic never reads them. Search and view events whose `userId`, `query` or `courseId` is absent (read as `None`), and course fields that are present but not strings, are not modelled; in the code they raise or compare as `None`.
- A course is modelled by its title and description only. The other fields of the stored document are returned unchanged and play no part in the search.
