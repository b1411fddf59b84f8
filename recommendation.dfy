/**
 * Course recommendation from search and view history
 * (`get_recommendations` in backend/recommendation_model.py).
 *
 * The service reads two snapshots, the search log and the course-view log,
 * and ranks every search-log row by the text similarity of its query to the
 * target user's joined queries. The similarity scores come from TF-IDF
 * vectors and cosine similarity in a third-party library; this model takes
 * their outcome, the row indices ordered best first, as the `ranking`
 * parameter and fixes no tie-break among equal scores.
 */
module Recommendation {
  import opened Wrappers
  import opened Sequences

  type UserId = string
  type CourseId = string

  /** One row of the `user_searches` collection (the timestamp is not used). */
  datatype SearchEvent = SearchEvent(userId: UserId, query: string)

  /** One row of the `user_course_views` collection (the timestamp is not used). */
  datatype ViewEvent = ViewEvent(userId: UserId, courseId: CourseId)

  /**
   * Selecting the `userId` column of a data frame built from an empty
   * record list fails with a KeyError, since such a frame has no columns.
   */
  datatype LookupError = KeyError(key: string)

  /** The rows of the search window: ranked positions 2 to 6. */
  const WindowStart := 1
  const WindowEnd := 6

  /** `ranking` orders every row index of an `n`-row log exactly once. */
  predicate IsRanking(ranking: seq<nat>, n: nat) {
    && |ranking| == n
    && (forall k :: 0 <= k < |ranking| ==> ranking[k] < n)
    && NoDuplicates(ranking)
  }

  /** The values a sequence of row indices holds. */
  function Elements(s: seq<nat>): set<nat> {
    set x | x in s
  }

  /** Distinct entries: as many values as entries. */
  lemma {:induction false} DistinctElementsCount(s: seq<nat>)
    requires NoDuplicates(s)
    ensures |Elements(s)| == |s|
  {
    if s != [] {
      assert NoDuplicates(s[1..]);
      DistinctElementsCount(s[1..]);
      assert Elements(s) == Elements(s[1..]) + {s[0]};
    }
  }

  /** The row indices of an `n`-row log, as a set. */
  function RowIndices(n: nat): (r: set<nat>)
    ensures |r| == n
    ensures forall i: nat :: i in r <==> i < n
  {
    if n == 0 then {} else RowIndices(n - 1) + {n - 1}
  }

  /**
   * A ranking is a permutation of the row indices: every row of the log
   * is ranked somewhere (what `argsort()[::-1]` returns).
   */
  lemma RankingCoversRows(ranking: seq<nat>, n: nat)
    requires IsRanking(ranking, n)
    ensures forall i :: 0 <= i < n ==> i in ranking
  {
    var ranked := Elements(ranking);
    var rows := RowIndices(n);
    DistinctElementsCount(ranking);
    assert ranked <= rows;
    var missing := rows - ranked;
    assert rows == ranked + missing;
    assert ranked * missing == {};
    assert |rows| == |ranked| + |missing|;
    assert missing == {};
    forall i | 0 <= i < n ensures i in ranking {
      assert i in rows;
    }
  }

  /** The queries of `user`, in log order. */
  function QueriesBy(searches: seq<SearchEvent>, user: UserId): (r: seq<string>)
    ensures forall q :: q in r <==> SearchEvent(user, q) in searches
    ensures r == [] <==> forall q :: SearchEvent(user, q) !in searches
    ensures |r| <= |searches|
  {
    if searches == [] then []
    else
      (if searches[0].userId == user then [searches[0].query] else [])
      + QueriesBy(searches[1..], user)
  }

  /**
   * The course ids of the views made by any of `users`, in log order,
   * repeats included.
   */
  function CoursesViewedBy(views: seq<ViewEvent>, users: seq<UserId>): (r: seq<CourseId>)
    ensures forall c :: c in r <==> exists u :: u in users && ViewEvent(u, c) in views
    ensures |r| <= |views|
  {
    if views == [] then []
    else
      var rest := CoursesViewedBy(views[1..], users);
      assert forall u, c :: ViewEvent(u, c) in views <==>
        ViewEvent(u, c) == views[0] || ViewEvent(u, c) in views[1..];
      (if views[0].userId in users then [views[0].courseId] else []) + rest
  }

  /** The selection keeps view-log order: it distributes over concatenation. */
  lemma {:induction false} CoursesViewedByAppend(a: seq<ViewEvent>, b: seq<ViewEvent>, users: seq<UserId>)
    ensures CoursesViewedBy(a + b, users) == CoursesViewedBy(a, users) + CoursesViewedBy(b, users)
  {
    if a != [] {
      assert (a + b)[1..] == a[1..] + b;
      CoursesViewedByAppend(a[1..], b, users);
    } else {
      assert a + b == b;
    }
  }

  /** Python's `ranking[1:6]`: the slice clips at the end of the list. */
  function Window(ranking: seq<nat>): (w: seq<nat>)
    ensures forall k :: 0 <= k < |w| ==> WindowStart + k < |ranking| && w[k] == ranking[WindowStart + k]
    ensures |w| == if |ranking| <= WindowStart then 0
                   else (if |ranking| < WindowEnd then |ranking| else WindowEnd) - WindowStart
  {
    var lo := if |ranking| < WindowStart then |ranking| else WindowStart;
    var hi := if |ranking| < WindowEnd then |ranking| else WindowEnd;
    ranking[lo..hi]
  }

  /**
   * The distinct users who issued the searches in the window, in window
   * order (`search_df.iloc[...]['userId'].unique()`).
   */
  function SimilarUsers(searches: seq<SearchEvent>, ranking: seq<nat>): (r: seq<UserId>)
    requires IsRanking(ranking, |searches|)
    ensures |r| <= WindowEnd - WindowStart
    ensures NoDuplicates(r)
    ensures forall u :: u in r <==>
      exists k :: WindowStart <= k < WindowEnd && k < |ranking| && searches[ranking[k]].userId == u
  {
    var w := Window(ranking);
    var rows := seq(|w|, i requires 0 <= i < |w| => searches[w[i]].userId);
    assert forall u :: u in rows <==>
      exists k :: WindowStart <= k < WindowEnd && k < |ranking| && searches[ranking[k]].userId == u
    by {
      forall u | exists k :: WindowStart <= k < WindowEnd && k < |ranking| && searches[ranking[k]].userId == u
        ensures u in rows
      {
        var k :| WindowStart <= k < WindowEnd && k < |ranking| && searches[ranking[k]].userId == u;
        assert rows[k - WindowStart] == u;
      }
    }
    Dedup(rows)
  }

  /**
   * The distinct courses the given users viewed, in order of first
   * appearance in the view log
   * (`view_df[view_df['userId'].isin(...)]['courseId'].unique()`).
   */
  function CandidateCourses(views: seq<ViewEvent>, users: seq<UserId>): (r: seq<CourseId>)
    ensures NoDuplicates(r)
    ensures forall c :: c in r <==> exists u :: u in users && ViewEvent(u, c) in views
  {
    Dedup(CoursesViewedBy(views, users))
  }

  /** The candidates not in `seen`, in candidate order (the list comprehension). */
  function Exclude(candidates: seq<CourseId>, seen: seq<CourseId>): (r: seq<CourseId>)
    ensures forall c :: c in r <==> c in candidates && c !in seen
    ensures NoDuplicates(candidates) ==> NoDuplicates(r)
    ensures |r| <= |candidates|
  {
    if candidates == [] then []
    else
      var rest := Exclude(candidates[1..], seen);
      if candidates[0] in seen then rest else [candidates[0]] + rest
  }

  /** Exclusion keeps the relative order: it distributes over concatenation. */
  lemma {:induction false} ExcludeAppend(a: seq<CourseId>, b: seq<CourseId>, seen: seq<CourseId>)
    ensures Exclude(a + b, seen) == Exclude(a, seen) + Exclude(b, seen)
  {
    if a != [] {
      assert (a + b)[1..] == a[1..] + b;
      ExcludeAppend(a[1..], b, seen);
    } else {
      assert a + b == b;
    }
  }

  /**
   * The full candidate list before truncation: courses the similar users
   * viewed, deduplicated in first-appearance order, minus the target
   * user's own views.
   */
  function Unseen(searches: seq<SearchEvent>, views: seq<ViewEvent>, ranking: seq<nat>, user: UserId)
    : (r: seq<CourseId>)
    requires IsRanking(ranking, |searches|)
    ensures NoDuplicates(r)
    ensures forall c :: c in r <==>
      (exists u :: u in SimilarUsers(searches, ranking) && ViewEvent(u, c) in views)
      && ViewEvent(user, c) !in views
  {
    var own := CoursesViewedBy(views, [user]);
    assert forall c :: c in own <==> ViewEvent(user, c) in views by {
      forall c ensures c in own <==> ViewEvent(user, c) in views {
        if ViewEvent(user, c) in views {
          assert user in [user];
        }
      }
    }
    Exclude(CandidateCourses(views, SimilarUsers(searches, ranking)), own)
  }

  /**
   * `get_recommendations(user, n)` over the two snapshots, with the
   * similarity ranking supplied.
   */
  function Recommend(searches: seq<SearchEvent>, views: seq<ViewEvent>, ranking: seq<nat>,
                     user: UserId, n: nat): (r: Result<seq<CourseId>, LookupError>)
    requires IsRanking(ranking, |searches|)
    // An empty log has no `userId` column: the lookup fails before anything else.
    ensures r.Failure? <==> searches == [] || views == []
    ensures r.Failure? ==> r.error == KeyError("userId")
    // A user without searches gets nothing.
    ensures r.Success? && (forall q :: SearchEvent(user, q) !in searches) ==> r.value == []
    ensures r.Success? ==> |r.value| <= n
    ensures r.Success? ==> NoDuplicates(r.value)
    ensures r.Success? ==> forall c :: c in r.value ==> ViewEvent(user, c) !in views
    ensures r.Success? ==> forall c :: c in r.value ==>
      exists u :: u in SimilarUsers(searches, ranking) && ViewEvent(u, c) in views
  {
    if searches == [] || views == [] then
      Failure(KeyError("userId"))
    else if QueriesBy(searches, user) == [] then
      Success([])
    else
      var unseen := Unseen(searches, views, ranking, user);
      var taken := if n < |unseen| then unseen[..n] else unseen;
      assert taken <= unseen;
      assert forall c :: c in taken ==> c in unseen;
      assert NoDuplicates(taken);
      Success(taken)
  }

  /**
   * When the user has searched, the result is the first `n` unseen
   * candidates: a prefix of the unseen list, and all of it when it fits.
   */
  lemma RecommendTakesUnseenPrefix(searches: seq<SearchEvent>, views: seq<ViewEvent>, ranking: seq<nat>,
                                   user: UserId, n: nat)
    requires IsRanking(ranking, |searches|)
    requires searches != [] && views != []
    requires exists q :: SearchEvent(user, q) in searches
    ensures Recommend(searches, views, ranking, user, n).Success?
    ensures Recommend(searches, views, ranking, user, n).value <= Unseen(searches, views, ranking, user)
    ensures |Recommend(searches, views, ranking, user, n).value|
            == if n < |Unseen(searches, views, ranking, user)| then n else |Unseen(searches, views, ranking, user)|
  {
  }
}
